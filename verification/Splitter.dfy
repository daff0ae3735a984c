/**
 * split_string() of cli.c: one pass counts the pieces between separators, the other cuts a copy of the string in
 * place and stores where each piece starts. str_split() of platform.c is the same algorithm.
 */
module Splitter {
  import opened Basics

  const NUL: char := '\0'

  predicate Occurs(s: seq<char>, i: nat, sep: string) {
    i + |sep| <= |s| && s[i..i + |sep|] == sep
  }

  /** strstr(): the first occurrence of sep from from on, before the terminator; -1 stands for NULL. */
  function StrStr(s: seq<char>, from: nat, sep: string): (r: int)
    requires from <= |s|
    ensures r == -1 || (from <= r && Occurs(s, r, sep))
    ensures forall i :: from <= i < r ==> !Occurs(s, i, sep)
    decreases |s| - from
  {
    if Occurs(s, from, sep) then from
    else if from == |s| || s[from] == NUL then -1
    else StrStr(s, from + 1, sep)
  }

  /** The text that a pointer to position p of the memory denotes. */
  function StringAt(mem: seq<char>, p: nat): (text: string)
    ensures p <= |mem| ==> p + |text| <= |mem| && text == mem[p..p + |text|]
    ensures NUL !in text
    decreases |mem| - p
  {
    if p >= |mem| || mem[p] == NUL then [] else [mem[p]] + StringAt(mem, p + 1)
  }

  predicate Terminated(mem: seq<char>, p: nat) {
    p + |StringAt(mem, p)| < |mem|
  }

  // ---- the reference: what it means to split a string

  ghost function Join(gaps: seq<string>, sep: string): string
    requires gaps != []
  {
    if |gaps| == 1 then gaps[0] else gaps[0] + sep + Join(gaps[1..], sep)
  }

  /** No separator starts inside gap when gap is followed by tail. */
  ghost predicate Free(gap: string, tail: string, sep: string) {
    forall i :: 0 <= i < |gap| ==> !Occurs(gap + tail, i, sep)
  }

  /** s is cut at its leftmost non-overlapping separators, and at no other place. */
  ghost predicate IsSplit(gaps: seq<string>, s: string, sep: string) {
    && gaps != [] && Join(gaps, sep) == s
    && (forall k :: 0 <= k < |gaps| - 1 ==> Free(gaps[k], sep, sep))
    && Free(gaps[|gaps| - 1], [], sep)
  }

  function Kept(gaps: seq<string>): seq<string> {
    if gaps == [] then [] else Kept(gaps[..|gaps| - 1]) + if gaps[|gaps| - 1] == [] then [] else [gaps[|gaps| - 1]]
  }

  /** Just the empty gaps are left out, and the others stay in order. */
  lemma {:induction false} KeptOfConcat(a: seq<string>, b: seq<string>)
    ensures Kept(a + b) == Kept(a) + Kept(b)
    decreases |b|
  {
    if b == [] {
      assert a + b == a;
    } else {
      var n := |b| - 1;
      KeptOfConcat(a, b[..n]);
      assert (a + b)[..|a| + n] == a + b[..n];
    }
  }

  lemma KeptOfOne(gap: string)
    ensures Kept([gap]) == if gap == [] then [] else [gap]
  {
  }

  /** The gaps from from on. */
  function Gaps(s: string, from: nat, sep: string): (gaps: seq<string>)
    requires from <= |s| && sep != []
    ensures gaps != []
    decreases |s| - from
  {
    var sub := StrStr(s, from, sep);
    if sub < 0 then [s[from..]] else [s[from..sub]] + Gaps(s, sub + |sep|, sep)
  }

  /** In a text without terminator, strstr() finds nothing only if there is nothing. */
  lemma {:induction false} NothingFound(s: string, from: nat, sep: string, i: nat)
    requires NUL !in s && from <= i <= |s| && StrStr(s, from, sep) == -1
    ensures !Occurs(s, i, sep)
    decreases |s| - from
  {
    if from < i {
      NothingFound(s, from + 1, sep, i);
    }
  }

  lemma OccursInSlice(s: string, from: nat, to: nat, i: nat, sep: string)
    requires from <= to <= |s|
    ensures Occurs(s[from..to], i, sep) <==> from + i + |sep| <= to && Occurs(s, from + i, sep)
  {
    if from + i + |sep| <= to {
      SliceOfSlice(s, from, to, i, i + |sep|);
    }
  }

  lemma LastIsFree(s: string, from: nat, sep: string)
    requires NUL !in s && from <= |s| && StrStr(s, from, sep) == -1
    ensures Free(s[from..], [], sep)
  {
    assert s[from..] + [] == s[from..];
    forall i | 0 <= i < |s[from..]|
      ensures !Occurs(s[from..], i, sep)
    {
      NothingFound(s, from, sep, from + i);
      OccursInSlice(s, from, |s|, i, sep);
    }
  }

  lemma FirstIsFree(s: string, from: nat, sep: string)
    requires from <= |s| && StrStr(s, from, sep) >= 0
    ensures Free(s[from..StrStr(s, from, sep)], sep, sep)
    ensures var sub := StrStr(s, from, sep); s[from..] == s[from..sub] + sep + s[sub + |sep|..]
  {
    var sub := StrStr(s, from, sep);
    assert s[from..sub] + sep == s[from..sub + |sep|];
    forall i | 0 <= i < |s[from..sub]|
      ensures !Occurs(s[from..sub] + sep, i, sep)
    {
      OccursInSlice(s, from, sub + |sep|, i, sep);
    }
  }

  lemma SplitCons(gap: string, gaps: seq<string>, rest: string, sep: string)
    requires Free(gap, sep, sep) && IsSplit(gaps, rest, sep)
    ensures IsSplit([gap] + gaps, gap + sep + rest, sep)
  {
    hide Free;
    assert ([gap] + gaps)[1..] == gaps;
  }

  /** The gaps are a split of the string... */
  lemma {:induction false} GapsAreSplit(s: string, from: nat, sep: string)
    requires NUL !in s && from <= |s| && sep != []
    ensures IsSplit(Gaps(s, from, sep), s[from..], sep)
    decreases |s| - from
  {
    hide StrStr, Free;
    var sub := StrStr(s, from, sep);
    if sub < 0 {
      LastIsFree(s, from, sep);
    } else {
      GapsAreSplit(s, sub + |sep|, sep);
      FirstIsFree(s, from, sep);
      SplitCons(s[from..sub], Gaps(s, sub + |sep|, sep), s[sub + |sep|..], sep);
    }
  }

  lemma OneGap(s: string, from: nat, sep: string, gap: string)
    requires NUL !in s && from <= |s| && sep != []
    requires gap == s[from..] && Free(gap, [], sep)
    ensures StrStr(s, from, sep) == -1
  {
    var sub := StrStr(s, from, sep);
    assert s[from..|s|] == gap + [];
    if sub >= 0 {
      OccursInSlice(s, from, |s|, sub - from, sep);
      assert false;
    }
  }

  lemma PrefixSlices(s: string, from: nat, gap: string, sep: string, rest: string)
    requires from <= |s| && s[from..] == gap + sep + rest
    ensures from + |gap| + |sep| <= |s|
    ensures s[from..from + |gap|] == gap && s[from + |gap|..from + |gap| + |sep|] == sep
    ensures s[from..from + |gap| + |sep|] == gap + sep && s[from + |gap| + |sep|..] == rest
  {
    assert |s[from..]| == |gap| + |sep| + |rest|;
    assert s[from..|s|] == s[from..];
    SliceOfSlice(s, from, |s|, 0, |gap|);
    SliceOfSlice(s, from, |s|, |gap|, |gap| + |sep|);
    SliceOfSlice(s, from, |s|, 0, |gap| + |sep|);
    SliceOfSlice(s, from, |s|, |gap| + |sep|, |gap| + |sep| + |rest|);
  }

  lemma FirstGap(s: string, from: nat, sep: string, gap: string, rest: string)
    requires NUL !in s && from <= |s| && sep != []
    requires s[from..] == gap + sep + rest && Free(gap, sep, sep)
    ensures from + |gap| + |sep| <= |s| && StrStr(s, from, sep) == from + |gap|
    ensures gap == s[from..from + |gap|] && rest == s[from + |gap| + |sep|..]
  {
    hide StrStr;
    var n := from + |gap|;
    PrefixSlices(s, from, gap, sep, rest);
    assert Occurs(s, n, sep);
    NothingFoundIffMissing(s, from, sep, n);
    var sub := StrStr(s, from, sep);
    if sub < n {
      OccursInSlice(s, from, n + |sep|, sub - from, sep);
      assert false;
    }
  }

  lemma OneIsAll(gaps: seq<string>, s: string, sep: string)
    requires IsSplit(gaps, s, sep) && |gaps| == 1
    ensures gaps[0] == s && Free(gaps[0], [], sep)
  {
  }

  lemma SplitTail(gaps: seq<string>, s: string, sep: string)
    requires IsSplit(gaps, s, sep) && |gaps| != 1
    ensures |gaps| > 1 && s == gaps[0] + sep + Join(gaps[1..], sep) && Free(gaps[0], sep, sep)
    ensures IsSplit(gaps[1..], Join(gaps[1..], sep), sep)
  {
  }

  /** ...and the only one. */
  lemma {:induction false} SplitIsUnique(s: string, from: nat, sep: string, gaps: seq<string>)
    requires NUL !in s && from <= |s| && sep != []
    requires IsSplit(gaps, s[from..], sep)
    ensures gaps == Gaps(s, from, sep)
    decreases |gaps|
  {
    hide Free, StrStr, Occurs, IsSplit, Join;
    if |gaps| == 1 {
      OneIsAll(gaps, s[from..], sep);
      OneGap(s, from, sep, gaps[0]);
      assert gaps == [gaps[0]];
    } else {
      SplitTail(gaps, s[from..], sep);
      FirstGap(s, from, sep, gaps[0], Join(gaps[1..], sep));
      var next := from + |gaps[0]| + |sep|;
      SplitIsUnique(s, next, sep, gaps[1..]);
      assert gaps == [gaps[0]] + gaps[1..];
    }
  }

  lemma NothingFoundIffMissing(s: string, from: nat, sep: string, i: nat)
    requires NUL !in s && from <= i <= |s| && Occurs(s, i, sep)
    ensures 0 <= StrStr(s, from, sep) <= i
  {
    if StrStr(s, from, sep) < 0 {
      NothingFound(s, from, sep, i);
    }
  }

  // ---- the code

  /** The gaps before tmp are done, those from tmp on are still to come. */
  ghost predicate Midway(str: string, sep: string, tmp: nat, done: seq<string>) {
    tmp <= |str| && sep != [] && done + Gaps(str, tmp, sep) == Gaps(str, 0, sep)
  }

  lemma Begin(str: string, sep: string)
    requires sep != []
    ensures Midway(str, sep, 0, []) && Kept([]) == []
  {
    assert [] + Gaps(str, 0, sep) == Gaps(str, 0, sep);
  }

  lemma NextGap(str: string, sep: string, tmp: nat, done: seq<string>)
    requires Midway(str, sep, tmp, done) && StrStr(str, tmp, sep) >= 0
    ensures var sub := StrStr(str, tmp, sep);
      && Midway(str, sep, sub + |sep|, done + [str[tmp..sub]])
      && Kept(done + [str[tmp..sub]]) == if tmp == sub then Kept(done) else Kept(done) + [str[tmp..sub]]
  {
    hide Kept, StrStr;
    var sub := StrStr(str, tmp, sep);
    Regroup(done, str[tmp..sub], Gaps(str, sub + |sep|, sep));
    KeptAppend(done, str[tmp..sub]);
  }

  lemma LastGap(str: string, sep: string, tmp: nat, done: seq<string>)
    requires Midway(str, sep, tmp, done) && StrStr(str, tmp, sep) < 0
    ensures Kept(Gaps(str, 0, sep)) == if tmp == |str| then Kept(done) else Kept(done) + [str[tmp..]]
  {
    KeptAppend(done, str[tmp..]);
  }

  lemma KeptAppend(gaps: seq<string>, g: string)
    ensures Kept(gaps + [g]) == if g == [] then Kept(gaps) else Kept(gaps) + [g]
  {
    assert (gaps + [g])[..|gaps|] == gaps;
  }

  /** The first pass. */
  method CountParts(str: string, sep: string) returns (count: nat)
    requires NUL !in str && sep != []
    ensures count == |Kept(Gaps(str, 0, sep))|
  {
    hide Midway, Kept, StrStr, Gaps;
    count := 0;
    var tmp := 0;
    var sub := StrStr(str, tmp, sep);
    ghost var done: seq<string> := [];
    Begin(str, sep);
    while sub >= 0
      invariant tmp <= |str| && sub == StrStr(str, tmp, sep)
      invariant Midway(str, sep, tmp, done) && count == |Kept(done)|
      decreases |str| - tmp
    {
      NextGap(str, sep, tmp, done);
      done := done + [str[tmp..sub]];
      if sub != tmp {
        count := count + 1;
      }
      tmp := sub + |sep|;
      sub := StrStr(str, tmp, sep);
    }
    LastGap(str, sep, tmp, done);
    if tmp < |str| {
      count := count + 1;
    }
  }

  // ---- the second pass

  /** The memory holds str from position from on, with its terminator. */
  ghost predicate Untouched(mem: seq<char>, str: string, from: nat) {
    |mem| == |str| + 1 && from <= |str| && mem[from..] == str[from..] + [NUL]
  }

  /** The pointers stored so far denote the kept parts, all of which end before limit. */
  ghost predicate Stored(mem: seq<char>, ptrs: seq<nat>, parts: seq<string>, limit: nat) {
    && |parts| <= |ptrs|
    && forall k {:trigger parts[k]} :: 0 <= k < |parts| ==>
         StringAt(mem, ptrs[k]) == parts[k] && ptrs[k] + |parts[k]| < limit
  }

  /** strstr() finds the same in the copy as in the original. */
  lemma {:induction false} SameStrStr(mem: seq<char>, str: string, from: nat, sep: string)
    requires Untouched(mem, str, from) && NUL !in str && NUL !in sep && sep != []
    ensures StrStr(mem, from, sep) == StrStr(str, from, sep)
    decreases |str| - from
  {
    SameOccurs(mem, str, from, sep);
    if from < |str| {
      assert mem[from + 1..] == mem[from..][1..] == str[from + 1..] + [NUL];
      assert mem[from] == mem[from..][0] == str[from];
      SameStrStr(mem, str, from + 1, sep);
    } else {
      assert mem[from] == mem[from..][0] == NUL;
    }
  }

  lemma SameOccurs(mem: seq<char>, str: string, from: nat, sep: string)
    requires Untouched(mem, str, from) && NUL !in sep && sep != []
    ensures Occurs(mem, from, sep) <==> Occurs(str, from, sep)
  {
    if from + |sep| <= |str| {
      assert mem[from..][..|sep|] == str[from..][..|sep|];
      assert mem[from..from + |sep|] == str[from..from + |sep|];
    } else if from + |sep| == |mem| {
      assert mem[from..from + |sep|] == mem[from..];
      assert mem[from..][|sep| - 1] == NUL;
    }
  }

  /** A text without terminator, followed by one, is what a pointer to its start denotes. */
  lemma {:induction false} StringBeforeNul(mem: seq<char>, p: nat, end: nat)
    requires p <= end < |mem| && NUL !in mem[p..end] && mem[end] == NUL
    ensures StringAt(mem, p) == mem[p..end]
    decreases end - p
  {
    if p < end {
      assert mem[p] == mem[p..end][0];
      assert mem[p + 1..end] == mem[p..end][1..];
      StringBeforeNul(mem, p + 1, end);
    }
  }

  /** Changes from limit on leave the strings that end before it as they are. */
  lemma StoredStays(mem: seq<char>, mem': seq<char>, ptrs: seq<nat>, parts: seq<string>, limit: nat)
    requires Stored(mem, ptrs, parts, limit) && limit <= |mem| == |mem'| && mem[..limit] == mem'[..limit]
    ensures Stored(mem', ptrs, parts, limit)
  {
    forall k | 0 <= k < |parts|
      ensures StringAt(mem', ptrs[k]) == parts[k]
    {
      assert StringAt(mem, ptrs[k]) == parts[k] && ptrs[k] + |parts[k]| < limit;
      SameString(mem, mem', ptrs[k], limit);
    }
  }

  lemma {:induction false} SameString(mem: seq<char>, mem': seq<char>, p: nat, limit: nat)
    requires p + |StringAt(mem, p)| < limit <= |mem| == |mem'| && mem[..limit] == mem'[..limit]
    ensures StringAt(mem', p) == StringAt(mem, p)
    decreases limit - p
  {
    assert mem[p] == mem[..limit][p] == mem'[p];
    if mem[p] != NUL {
      SameString(mem, mem', p + 1, limit);
    }
  }

  lemma StoredOneMore(mem: seq<char>, ptrs: seq<nat>, parts: seq<string>, limit: nat, p: nat, part: string)
    requires Stored(mem, ptrs, parts, limit) && |parts| < |ptrs|
    requires StringAt(mem, p) == part && p + |part| < limit
    ensures Stored(mem, ptrs[|parts| := p], parts + [part], limit)
  {
    hide StringAt;
  }

  /** The memory after the separator at sub has been zeroed. */
  ghost function Zeroed(mem: seq<char>, sub: nat, n: nat): seq<char>
    requires sub + n <= |mem|
  {
    mem[..sub] + seq(n, _ => NUL) + mem[sub + n..]
  }

  /** Zeroing a separator ends the part before it and leaves the rest of the text as it was. */
  lemma CutAt(mem: seq<char>, str: string, tmp: nat, sub: nat, n: nat)
    requires Untouched(mem, str, tmp) && NUL !in str && tmp <= sub && n >= 1 && sub + n <= |str|
    ensures Untouched(Zeroed(mem, sub, n), str, sub + n)
    ensures StringAt(Zeroed(mem, sub, n), tmp) == str[tmp..sub]
    ensures Zeroed(mem, sub, n)[..tmp] == mem[..tmp]
  {
    var mem' := Zeroed(mem, sub, n);
    assert mem'[sub + n..] == mem[sub + n..] == mem[tmp..][sub + n - tmp..];
    assert mem'[tmp..sub] == mem[tmp..sub] == mem[tmp..][..sub - tmp] == str[tmp..sub];
    StringBeforeNul(mem', tmp, sub);
  }

  /** The text after the last separator ends with the copy's own terminator. */
  lemma LastText(mem: seq<char>, str: string, tmp: nat)
    requires Untouched(mem, str, tmp) && NUL !in str
    ensures StringAt(mem, tmp) == str[tmp..]
  {
    assert mem[|str|] == mem[tmp..][|str| - tmp] == NUL;
    assert mem[tmp..|str|] == mem[tmp..][..|str| - tmp] == str[tmp..];
    StringBeforeNul(mem, tmp, |str|);
  }

  lemma {:induction false} KeptConcat(a: seq<string>, b: seq<string>)
    ensures Kept(a + b) == Kept(a) + Kept(b)
    decreases |b|
  {
    if b == [] {
      assert a + b == a;
    } else {
      assert (a + b)[..|a + b| - 1] == a + b[..|b| - 1];
      KeptConcat(a, b[..|b| - 1]);
    }
  }

  /** What is kept so far never exceeds what was counted. */
  lemma KeptFits(str: string, sep: string, tmp: nat, done: seq<string>)
    requires Midway(str, sep, tmp, done)
    ensures |Kept(done)| <= |Kept(Gaps(str, 0, sep))|
  {
    KeptConcat(done, Gaps(str, tmp, sep));
  }

  /** memset(at, 0, n) */
  method ZeroOut(buf: array<char>, at: nat, n: nat)
    requires at + n <= buf.Length
    modifies buf
    ensures buf[..] == Zeroed(old(buf[..]), at, n)
  {
    forall i | at <= i < at + n {
      buf[i] := NUL;
    }
  }

  /** One separator: store the part before it, if there is one, and cut the text. */
  method CutPart(buf: array<char>, res: array<nat>, count: nat, tmp: nat, sub: nat, sep: string,
                 ghost str: string, ghost parts: seq<string>) returns (newCount: nat)
    requires NUL !in str && sep != [] && tmp <= sub && sub + |sep| <= |str| && count == |parts|
    requires Untouched(buf[..], str, tmp) && Stored(buf[..], res[..], parts, tmp)
    requires tmp < sub ==> count < res.Length
    modifies buf, res
    ensures Untouched(buf[..], str, sub + |sep|)
    ensures var now := if tmp == sub then parts else parts + [str[tmp..sub]];
      newCount == |now| && Stored(buf[..], res[..], now, sub + |sep|)
  {
    hide Stored, StringAt, Zeroed;
    newCount := count;
    ghost var mem: seq<char>, ptrs: seq<nat> := buf[..], res[..];
    CutAt(mem, str, tmp, sub, |sep|);
    StoredLater(mem, Zeroed(mem, sub, |sep|), ptrs, parts, tmp, sub + |sep|);
    if sub != tmp {
      StoredOneMore(Zeroed(mem, sub, |sep|), ptrs, parts, sub + |sep|, tmp, str[tmp..sub]);
      res[count] := tmp;
      newCount := newCount + 1;
      assert res[..] == ptrs[count := tmp];
    }
    ZeroOut(buf, sub, |sep|);
  }

  lemma StoredLater(mem: seq<char>, mem': seq<char>, ptrs: seq<nat>, parts: seq<string>, limit: nat, later: nat)
    requires Stored(mem, ptrs, parts, limit) && limit <= |mem| == |mem'| && mem[..limit] == mem'[..limit] && limit <= later
    ensures Stored(mem', ptrs, parts, later)
  {
    StoredStays(mem, mem', ptrs, parts, limit);
  }

  lemma BeginFill(mem: seq<char>, ptrs: seq<nat>, str: string, sep: string)
    requires NUL !in str && NUL !in sep && sep != [] && mem == str + [NUL]
    ensures Untouched(mem, str, 0) && Stored(mem, ptrs, [], 0)
    ensures StrStr(mem, 0, sep) == StrStr(str, 0, sep)
  {
    assert mem[0..] == mem && str[0..] == str;
    SameStrStr(mem, str, 0, sep);
  }

  lemma FoundFits(str: string, tmp: nat, sep: string)
    requires tmp <= |str| && StrStr(str, tmp, sep) >= 0
    ensures StrStr(str, tmp, sep) + |sep| <= |str|
  {
  }

  /** The character at tmp is the terminator only at the end of the text. */
  lemma CharAhead(mem: seq<char>, str: string, tmp: nat)
    requires Untouched(mem, str, tmp) && NUL !in str
    ensures mem[tmp] == NUL <==> tmp == |str|
  {
    assert mem[tmp] == mem[tmp..][0];
  }

  /** Stores the text after the last separator, if there is one. */
  method StoreLast(buf: array<char>, res: array<nat>, count: nat, tmp: nat, ghost str: string, ghost parts: seq<string>)
    requires NUL !in str && tmp <= |str| && buf.Length == |str| + 1 && count == |parts| < res.Length
    requires Untouched(buf[..], str, tmp) && Stored(buf[..], res[..], parts, tmp)
    modifies res
    ensures Stored(buf[..], res[..], if tmp == |str| then parts else parts + [str[tmp..]], buf.Length)
  {
    hide Untouched, Stored, StringAt;
    CharAhead(buf[..], str, tmp);
    StoredLater(buf[..], buf[..], res[..], parts, tmp, buf.Length);
    if buf[tmp] != NUL {
      LastText(buf[..], str, tmp);
      ghost var ptrs: seq<nat> := res[..];
      StoredOneMore(buf[..], ptrs, parts, buf.Length, tmp, str[tmp..]);
      res[count] := tmp;
      assert res[..] == ptrs[count := tmp];
    }
  }

  /** The second pass, over the copy in buf. */
  method FillParts(buf: array<char>, res: array<nat>, sep: string, ghost str: string)
    requires NUL !in str && NUL !in sep && sep != [] && buf[..] == str + [NUL]
    requires res.Length > |Kept(Gaps(str, 0, sep))|
    modifies buf, res
    ensures Stored(buf[..], res[..], Kept(Gaps(str, 0, sep)), buf.Length)
  {
    hide *;
    var count: nat, tmp: nat := 0, 0;
    ghost var done, parts: seq<string> := [], [];
    Begin(str, sep);
    BeginFill(buf[..], res[..], str, sep);
    var sub := StrStr(buf[..], tmp, sep);
    while sub >= 0
      invariant Midway(str, sep, tmp, done) && parts == Kept(done) && count == |parts|
      invariant Untouched(buf[..], str, tmp) && Stored(buf[..], res[..], parts, tmp)
      invariant tmp <= |str| == buf.Length - 1 && sub == StrStr(str, tmp, sep)
      decreases |str| - tmp
    {
      FoundFits(str, tmp, sep);
      ghost var gap := str[tmp..sub];
      NextGap(str, sep, tmp, done);
      KeptFits(str, sep, sub + |sep|, done + [gap]);
      count := CutPart(buf, res, count, tmp, sub, sep, str, parts);
      done, parts := done + [gap], Kept(done + [gap]);
      tmp := sub + |sep|;
      sub := StrStr(buf[..], tmp, sep);
      SameStrStr(buf[..], str, tmp, sep);
    }
    LastGap(str, sep, tmp, done);
    KeptFits(str, sep, tmp, done);
    StoreLast(buf, res, count, tmp, str, parts);
  }

  /** The pieces of a line, as pointers into a copy of it; no copy when the memory runs out. */
  datatype Line = Line(numParts: nat, parts: array?<nat>, text: array?<char>)

  /** split_string(); enoughMemory says whether malloc() succeeds. */
  method SplitString(str: string, sep: string, enoughMemory: bool) returns (line: Line)
    requires NUL !in str && NUL !in sep && sep != []
    ensures line.numParts == |Kept(Gaps(str, 0, sep))|
    ensures line.parts != null <==> enoughMemory
    ensures enoughMemory ==>
      && line.text != null && line.parts.Length == line.numParts + 1
      && forall k :: 0 <= k < line.numParts ==>
           && StringAt(line.text[..], line.parts[k]) == Kept(Gaps(str, 0, sep))[k]
           && Terminated(line.text[..], line.parts[k])
  {
    hide Kept, Gaps, StringAt;
    var numParts := CountParts(str, sep);
    if !enoughMemory {
      return Line(numParts, null, null);
    }
    var res := new nat[numParts + 1];
    var buf := new char[|str| + 1](i requires 0 <= i => if i < |str| then str[i] else NUL);
    assert buf[..] == str + [NUL];
    FillParts(buf, res, sep, str);
    line := Line(numParts, res, buf);
  }

  /** Every part is non-empty and free of the separator. */
  lemma PartsAreClean(str: string, sep: string, k: nat)
    requires NUL !in str && sep != [] && k < |Kept(Gaps(str, 0, sep))|
    ensures var part := Kept(Gaps(str, 0, sep))[k];
      part != [] && forall i :: 0 <= i < |part| ==> !Occurs(part, i, sep)
  {
    GapsAreSplit(str, 0, sep);
    var gaps := Gaps(str, 0, sep);
    KeptFrom(gaps, k);
    var j :| 0 <= j < |gaps| && gaps[j] == Kept(gaps)[k];
    FreeMeansAbsent(gaps[j], if j == |gaps| - 1 then [] else sep, sep);
  }

  lemma FreeMeansAbsent(gap: string, tail: string, sep: string)
    requires Free(gap, tail, sep)
    ensures forall i :: 0 <= i < |gap| ==> !Occurs(gap, i, sep)
  {
    forall i | 0 <= i < |gap|
      ensures !Occurs(gap, i, sep)
    {
      if Occurs(gap, i, sep) {
        assert (gap + tail)[i..i + |sep|] == gap[i..i + |sep|];
        assert Occurs(gap + tail, i, sep);
      }
    }
  }

  lemma {:induction false} KeptFrom(gaps: seq<string>, k: nat)
    requires k < |Kept(gaps)|
    ensures Kept(gaps)[k] != [] && exists j :: 0 <= j < |gaps| && gaps[j] == Kept(gaps)[k]
  {
    var n := |gaps| - 1;
    if k < |Kept(gaps[..n])| {
      KeptFrom(gaps[..n], k);
      var j :| 0 <= j < n && gaps[..n][j] == Kept(gaps[..n])[k];
      assert gaps[j] == Kept(gaps)[k];
    } else {
      assert gaps[n] == Kept(gaps)[k];
    }
  }
}
