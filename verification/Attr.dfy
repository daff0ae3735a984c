/**
 * The attribute lists of utils/attr.c: a linked list of named values, and the parser of attribute strings. The
 * parser is modelled on strings: it moves the ends of a key where the source writes terminators into the copy.
 */
module Attr {
  import opened Basics
  import opened Splitter

  /** An entry's value is None, a NULL pointer, after a replacement that ran out of memory. */
  class AttrEntry {
    var next: AttrEntry?
    const name: string
    var val: Option<string>

    constructor (name: string, val: Option<string>, next: AttrEntry?)
      ensures this.name == name && this.val == val && this.next == next
    {
      this.name, this.val, this.next := name, val, next;
    }
  }

  ghost predicate Linked(head: AttrEntry?, s: seq<AttrEntry>)
    reads s`next
  {
    && head == (if s == [] then null else s[0])
    && forall i {:trigger s[i].next} :: 0 <= i < |s| ==> s[i].next == if i + 1 < |s| then s[i + 1] else null
  }

  ghost predicate UniqueNames(s: seq<AttrEntry>) {
    forall i, j :: 0 <= i < j < |s| ==> s[i].name != s[j].name
  }

  ghost function Names(s: seq<AttrEntry>): set<string> {
    set i | 0 <= i < |s| :: s[i].name
  }

  /** The list s holds the map m. */
  ghost predicate Holds(s: seq<AttrEntry>, m: map<string, Option<string>>)
    reads s`val
  {
    && (forall i {:trigger s[i]} :: 0 <= i < |s| ==> s[i].name in m && m[s[i].name] == s[i].val)
    && m.Keys == Names(s)
  }

  lemma PushHolds(e: AttrEntry, s: seq<AttrEntry>, m: map<string, Option<string>>)
    requires Holds(s, m) && UniqueNames(s) && e.name !in m
    ensures Holds([e] + s, m[e.name := e.val]) && UniqueNames([e] + s)
  {
    var longer := [e] + s;
    forall k | k in Names(longer)
      ensures k in m[e.name := e.val]
    {
    }
    forall k | k in m[e.name := e.val]
      ensures k in Names(longer)
    {
      if k == e.name {
        assert longer[0].name == k;
      } else {
        var i :| 0 <= i < |s| && s[i].name == k;
        assert longer[i + 1].name == k;
      }
    }
  }

  /** The list without its i-th entry. */
  ghost function Without(s: seq<AttrEntry>, i: nat): seq<AttrEntry>
    requires i < |s|
  {
    s[..i] + s[i + 1..]
  }

  lemma RemoveNames(s: seq<AttrEntry>, i: nat)
    requires UniqueNames(s) && i < |s|
    ensures Names(Without(s, i)) == Names(s) - {s[i].name}
  {
    var shorter := Without(s, i);
    forall k | k in Names(s) && k != s[i].name
      ensures k in Names(shorter)
    {
      var j :| 0 <= j < |s| && s[j].name == k;
      assert shorter[if j < i then j else j - 1].name == k;
    }
    forall k | k in Names(shorter)
      ensures k in Names(s) && k != s[i].name
    {
      var j :| 0 <= j < |shorter| && shorter[j].name == k;
      assert s[if j < i then j else j + 1].name == k;
    }
  }

  lemma RemoveHolds(s: seq<AttrEntry>, i: nat, m: map<string, Option<string>>)
    requires Holds(s, m) && UniqueNames(s) && i < |s|
    ensures Holds(Without(s, i), m - {s[i].name}) && UniqueNames(Without(s, i))
  {
    hide Names;
    RemoveNames(s, i);
    assert (m - {s[i].name}).Keys == m.Keys - {s[i].name};
  }

  class Attrs {
    var head: AttrEntry?
    ghost var entries: seq<AttrEntry>
    ghost var contents: map<string, Option<string>>

    ghost predicate Valid()
      reads this, entries
    {
      Linked(head, entries) && UniqueNames(entries) && Holds(entries, contents)
    }

    constructor ()
      ensures Valid() && contents == map[] && entries == []
    {
      head, entries, contents := null, [], map[];
    }

    /** find_entry(): names are unique, so there is at most one. */
    method FindEntry(name: string) returns (e: AttrEntry?, ghost i: nat)
      requires Valid()
      ensures e != null ==> i < |entries| && e == entries[i] && e.name == name
      ensures e != null <==> name in contents
    {
      e, i := head, 0;
      while e != null
        invariant i <= |entries| && e == if i < |entries| then entries[i] else null
        invariant forall j :: 0 <= j < i ==> entries[j].name != name
        decreases |entries| - i
      {
        if e.name == name { return; }
        e, i := e.next, i + 1;
      }
    }

    /** attr_get_str() */
    method GetStr(name: string, def: Option<string>) returns (val: Option<string>)
      requires Valid()
      ensures val == if name in contents then contents[name] else def
    {
      ghost var i;
      var e;
      e, i := FindEntry(name);
      if e != null { return e.val; }
      val := def;
    }

    /**
     * attr_set_str(); enoughMemory says whether its allocations succeed. Without memory a new name is not added, but
     * an old value is lost.
     */
    method SetStr(name: string, val: string, enoughMemory: bool) returns (rc: int)
      requires Valid()
      modifies this, entries
      ensures Valid() && rc == if enoughMemory then 0 else 1
      ensures contents == if enoughMemory then old(contents)[name := Some(val)]
                          else if name in old(contents) then old(contents)[name := None] else old(contents)
      ensures forall e :: e in entries ==> e in old(entries) || fresh(e)
    {
      ghost var i;
      var e;
      e, i := FindEntry(name);
      if e != null {
        Replace(e, i, if enoughMemory then Some(val) else None);
        if e.val.None? {
          return 1;
        }
      } else if enoughMemory {
        PushEntry(name, val);
      } else {
        return 1;
      }
      rc := 0;
    }

    method Replace(e: AttrEntry, ghost i: nat, val: Option<string>)
      requires Valid() && i < |entries| && e == entries[i]
      modifies this`contents, e`val
      ensures Valid() && e.val == val && contents == old(contents)[e.name := val]
    {
      hide Names;
      e.val := val;
      contents := contents[e.name := val];
      assert contents.Keys == old(contents).Keys;
    }

    method PushEntry(name: string, val: string)
      requires Valid() && name !in contents
      modifies this
      ensures Valid() && contents == old(contents)[name := Some(val)]
      ensures forall e :: e in entries ==> e in old(entries) || fresh(e)
    {
      hide Holds, UniqueNames;
      var e := new AttrEntry(name, Some(val), head);
      PushHolds(e, entries, contents);
      head := e;
      entries := [e] + entries;
      contents := contents[name := Some(val)];
    }

    /** attr_remove() */
    method Remove(name: string)
      requires Valid()
      modifies this, entries
      ensures Valid() && contents == old(contents) - {name}
      ensures forall e :: e in entries ==> e in old(entries)
    {
      var e, p: AttrEntry? := head, null;
      ghost var i := 0;
      while e != null
        invariant i <= |entries| && e == if i < |entries| then entries[i] else null
        invariant p == if i > 0 then entries[i - 1] else null
        invariant forall j :: 0 <= j < i ==> entries[j].name != name
        decreases |entries| - i
      {
        if e.name == name { break; }
        p, e, i := e, e.next, i + 1;
      }
      if e != null {
        Unlink(e, p, i);
      } else {
        assert contents - {name} == contents;
      }
    }

    /** Takes the i-th entry e out of the list; p is the one before it. */
    method Unlink(e: AttrEntry, p: AttrEntry?, ghost i: nat)
      requires Valid() && i < |entries| && e == entries[i] && p == if i > 0 then entries[i - 1] else null
      modifies this, entries`next
      ensures Valid() && contents == old(contents) - {e.name} && entries == old(Without(entries, i))
    {
      hide Holds;
      RemoveHolds(entries, i, contents);
      if p == null {
        head := e.next;
      } else {
        p.next := e.next;
      }
      entries := Without(entries, i);
      contents := contents - {e.name};
    }
  }

  // ---- the parser

  const SPACE: char := ' '
  const AMPERSAND: string := "&"

  /** strchr(): the first position of c, or -1 for NULL. */
  function IndexOf(s: string, c: char): (r: int)
    ensures r == -1 <==> c !in s
    ensures r != -1 ==> 0 <= r < |s| && s[r] == c && c !in s[..r]
  {
    if s == [] then -1
    else if s[0] == c then 0
    else
      var rest := IndexOf(s[1..], c);
      assert s == [s[0]] + s[1..];
      if rest == -1 then -1 else
        assert s[..rest + 1] == [s[0]] + s[1..][..rest];
        rest + 1
  }

  /** t is s without the spaces at both ends. */
  ghost predicate IsTrimmed(t: string, s: string) {
    && (exists i, j :: IsMiddle(t, s, i, j))
    && (t != [] ==> t[0] != SPACE && t[|t| - 1] != SPACE)
  }

  /** t is what lies between two runs of spaces. */
  predicate IsMiddle(t: string, s: string, i: int, j: int) {
    0 <= i <= j <= |s| && t == s[i..j] && AllSpaces(s, 0, i) && AllSpaces(s, j, |s|)
  }

  predicate AllSpaces(s: string, i: nat, j: nat)
    requires i <= j <= |s|
  {
    forall k :: i <= k < j ==> s[k] == SPACE
  }

  function TrimLeft(s: string): string {
    if s != [] && s[0] == SPACE then TrimLeft(s[1..]) else s
  }

  function TrimRight(s: string): string {
    if s != [] && s[|s| - 1] == SPACE then TrimRight(s[..|s| - 1]) else s
  }

  function Trim(s: string): string {
    TrimRight(TrimLeft(s))
  }

  /** What a piece of an attribute string means: a key and the text after the first '='. */
  function ParsePair(pair: string): Option<(string, string)> {
    var eq := IndexOf(pair, '=');
    if eq == -1 then None
    else if Trim(pair[..eq]) == [] || pair[eq + 1..] == [] then None
    else Some((Trim(pair[..eq]), pair[eq + 1..]))
  }

  /** The pairs taken one after the other, a later one replacing an earlier one of the same key. */
  function ParsePairs(pairs: seq<string>): Option<map<string, string>> {
    if pairs == [] then Some(map[]) else
      var before := ParsePairs(pairs[..|pairs| - 1]);
      var last := ParsePair(pairs[|pairs| - 1]);
      if before.None? || last.None? then None else Some(before.value[last.value.0 := last.value.1])
  }

  function Parse(str: string): Option<map<string, string>> {
    if str == [] then None else ParsePairs(Kept(Gaps(str, 0, AMPERSAND)))
  }

  lemma {:induction false} TrimLeftIs(s: string) returns (i: nat)
    ensures i <= |s| && TrimLeft(s) == s[i..] && AllSpaces(s, 0, i)
    ensures TrimLeft(s) != [] ==> TrimLeft(s)[0] != SPACE
  {
    if s != [] && s[0] == SPACE {
      var i' := TrimLeftIs(s[1..]);
      i := i' + 1;
      assert s[1..][i'..] == s[i..];
      forall k | 0 <= k < i
        ensures s[k] == SPACE
      {
        assert k > 0 ==> s[1..][k - 1] == s[k];
      }
    } else {
      i := 0;
    }
  }

  lemma {:induction false} TrimRightIs(s: string) returns (j: nat)
    ensures j <= |s| && TrimRight(s) == s[..j] && AllSpaces(s, j, |s|)
    ensures TrimRight(s) != [] ==> TrimRight(s)[|TrimRight(s)| - 1] != SPACE
  {
    if s != [] && s[|s| - 1] == SPACE {
      var n := |s| - 1;
      j := TrimRightIs(s[..n]);
      assert s[..n][..j] == s[..j];
      forall k | j <= k < |s|
        ensures s[k] == SPACE
      {
        assert k < n ==> s[..n][k] == s[k];
      }
    } else {
      j := |s|;
    }
  }

  lemma SpacesOfSlice(s: string, i: nat, j: nat)
    requires i + j <= |s| && AllSpaces(s[i..], j, |s| - i)
    ensures AllSpaces(s, i + j, |s|)
  {
    forall k | i + j <= k < |s|
      ensures s[k] == SPACE
    {
      assert s[i..][k - i] == s[k];
    }
  }

  /** Trimming takes off exactly the spaces at both ends. */
  lemma TrimIsTrimmed(s: string)
    ensures IsTrimmed(Trim(s), s)
  {
    hide AllSpaces, TrimLeft, TrimRight;
    var left := TrimLeft(s);
    var i := TrimLeftIs(s);
    var j := TrimRightIs(left);
    SpacesOfSlice(s, i, j);
    assert left[..j] == s[i..i + j];
    assert IsMiddle(Trim(s), s, i, i + j);
    if j > 0 {
      assert left[..j][0] == left[0];
    }
  }

  /** Nothing else is s without the spaces at both ends. */
  lemma TrimmedIsUnique(t: string, u: string, s: string)
    requires IsTrimmed(t, s) && IsTrimmed(u, s)
    ensures t == u
  {
    var i, j :| IsMiddle(t, s, i, j);
    var i', j' :| IsMiddle(u, s, i', j');
    if t != [] {
      assert s[i] == t[0] && s[j - 1] == t[|t| - 1];
    }
    if u != [] {
      assert s[i'] == u[0] && s[j' - 1] == u[|u| - 1];
    }
  }

  /** A pair is cut at its first '='; before it stands the key, between spaces, after it the value, as it is. */
  lemma ParsePairIff(pair: string, key: string, value: string)
    ensures ParsePair(pair) == Some((key, value)) <==>
            exists eq :: CutAtFirst(pair, eq) && IsTrimmed(key, pair[..eq]) && key != []
                      && value == pair[eq + 1..] && value != []
  {
    hide IsTrimmed, Trim;
    var first := IndexOf(pair, '=');
    if first != -1 {
      TrimIsTrimmed(pair[..first]);
      if eq :| CutAtFirst(pair, eq) && IsTrimmed(key, pair[..eq]) {
        OneFirst(pair, eq, first);
        TrimmedIsUnique(key, Trim(pair[..first]), pair[..first]);
      }
      assert CutAtFirst(pair, first);
    }
  }

  ghost predicate CutAtFirst(pair: string, eq: int) {
    0 <= eq < |pair| && pair[eq] == '=' && '=' !in pair[..eq]
  }

  lemma OneFirst(pair: string, eq: int, first: int)
    requires CutAtFirst(pair, eq) && CutAtFirst(pair, first)
    ensures eq == first
  {
    InPrefix(pair, eq, first);
    InPrefix(pair, first, eq);
  }

  lemma InPrefix(s: string, i: int, n: int)
    ensures 0 <= i < n <= |s| ==> s[i] in s[..n]
  {
    if 0 <= i < n <= |s| {
      assert s[..n][i] == s[i];
    }
  }

  /** A string has a meaning exactly when it is not empty and each of its non-empty pieces is a pair. */
  lemma WellFormedIff(str: string)
    ensures Parse(str).Some? <==>
            str != [] && forall i :: 0 <= i < |Kept(Gaps(str, 0, AMPERSAND))| ==>
                           ParsePair(Kept(Gaps(str, 0, AMPERSAND))[i]).Some?
  {
    AcceptedIff(Kept(Gaps(str, 0, AMPERSAND)));
  }

  /** A string is accepted exactly when each of its pieces is a pair. */
  lemma {:induction false} AcceptedIff(pairs: seq<string>)
    ensures ParsePairs(pairs).Some? <==> forall i :: 0 <= i < |pairs| ==> ParsePair(pairs[i]).Some?
  {
    if pairs != [] {
      var n := |pairs| - 1;
      AcceptedIff(pairs[..n]);
      assert forall i :: 0 <= i < n ==> pairs[..n][i] == pairs[i];
    }
  }

  /** The keys are those of the pairs. */
  lemma {:induction false} KeysIff(pairs: seq<string>, k: string)
    requires ParsePairs(pairs).Some?
    ensures k in ParsePairs(pairs).value <==> exists i :: KeyAt(pairs, i, k)
  {
    if pairs != [] {
      var n := |pairs| - 1;
      KeysIff(pairs[..n], k);
      if i :| KeyAt(pairs[..n], i, k) {
        assert KeyAt(pairs, i, k);
      }
      if i :| KeyAt(pairs, i, k) {
        assert if i < n then KeyAt(pairs[..n], i, k) else ParsePair(pairs[n]).value.0 == k;
      }
      if ParsePair(pairs[n]).value.0 == k {
        assert KeyAt(pairs, n, k);
      }
    }
  }

  /** The last pair of a key gives its value. */
  lemma {:induction false} LastPairCounts(pairs: seq<string>, i: nat, k: string)
    requires ParsePairs(pairs).Some? && KeyAt(pairs, i, k)
    requires forall j :: i < j < |pairs| ==> !KeyAt(pairs, j, k)
    ensures k in ParsePairs(pairs).value && ParsePairs(pairs).value[k] == ParsePair(pairs[i]).value.1
  {
    var n := |pairs| - 1;
    if i < n {
      assert !KeyAt(pairs, n, k);
      forall j | i < j < n
        ensures !KeyAt(pairs[..n], j, k)
      {
        assert !KeyAt(pairs, j, k);
      }
      LastPairCounts(pairs[..n], i, k);
    }
  }

  /** The i-th pair has the key k. */
  ghost predicate KeyAt(pairs: seq<string>, i: int, k: string) {
    0 <= i < |pairs| && ParsePair(pairs[i]).Some? && ParsePair(pairs[i]).value.0 == k
  }

  // ---- the parser's code

  /** Splits a pair at its first '=' and trims the key, as one turn of the loop does. */
  method CutPair(pair: string) returns (ok: bool, key: string, value: string)
    ensures ok <==> ParsePair(pair).Some?
    ensures ok ==> ParsePair(pair) == Some((key, value))
  {
    key, value := "", "";
    var separator := IndexOf(pair, '=');
    if separator == -1 {
      return false, key, value;
    }
    key, value := pair[..separator], pair[separator + 1..];
    while key != [] && key[0] == SPACE
      invariant Trim(key) == Trim(pair[..separator])
    {
      key := key[1..];
    }
    assert Trim(key) == TrimRight(key);
    var i := |key| - 1;
    assert key[..i + 1] == key;
    while i > 0 && key[i] == SPACE
      invariant -1 <= i < |key| && (key != [] ==> 0 <= i && key[0] != SPACE)
      invariant TrimRight(key[..i + 1]) == TrimRight(key)
    {
      assert key[..i + 1][..i] == key[..i];
      i := i - 1;
    }
    key := key[..i + 1];
    assert TrimRight(key) == key;
    ok := key != [] && value != [];
  }

  /** Every name of m with its value, none of them NULL. */
  ghost function Values(m: map<string, string>): map<string, Option<string>> {
    map k | k in m :: Some(m[k])
  }

  lemma ValuesOfUpdate(m: map<string, string>, key: string, value: string)
    ensures Values(m[key := value]) == Values(m)[key := Some(value)]
  {
  }

  /** The attributes stand for what the first pairs mean. */
  ghost predicate Mean(contents: map<string, Option<string>>, pairs: seq<string>) {
    ParsePairs(pairs).Some? && contents == Values(ParsePairs(pairs).value)
  }

  lemma MeanOneMore(contents: map<string, Option<string>>, pairs: seq<string>, k: nat, key: string, value: string)
    requires k < |pairs| && Mean(contents, pairs[..k]) && ParsePair(pairs[k]) == Some((key, value))
    ensures Mean(contents[key := Some(value)], pairs[..k + 1])
  {
    assert pairs[..k + 1][..k] == pairs[..k];
    ValuesOfUpdate(ParsePairs(pairs[..k]).value, key, value);
  }

  /** One turn of the parser's loop. */
  method AddPair(attrs: Attrs, pair: string, enoughMemory: bool, ghost pairs: seq<string>, ghost k: nat)
      returns (ok: bool)
    requires attrs.Valid() && k < |pairs| && pairs[k] == pair && Mean(attrs.contents, pairs[..k])
    modifies attrs, set e | e in attrs.entries
    ensures ok <==> ParsePair(pair).Some? && enoughMemory
    ensures ok ==> attrs.Valid() && Mean(attrs.contents, pairs[..k + 1])
    ensures forall e :: e in attrs.entries ==> e in old(attrs.entries) || fresh(e)
  {
    hide ParsePair, Linked, Holds, UniqueNames, Mean;
    var key, value, rc;
    ok, key, value := CutPair(pair);
    if ok {
      MeanOneMore(attrs.contents, pairs, k, key, value);
      rc := attrs.SetStr(key, value, enoughMemory);
      ok := rc == 0;
    }
  }

  /** The allocations of a parse: the copy, the list, and one for each pair. */
  predicate AllAllocated(enough: nat -> bool, n: nat) {
    forall i: nat :: i < n + 2 ==> enough(i)
  }

  /**
   * attr_create_from_str(): the attributes, or null when the string is not well-formed or one of the allocations,
   * which are numbered in their order, fails.
   */
  method AttrCreateFromStr(str: string, enough: nat -> bool) returns (res: Attrs?)
    requires NUL !in str
    ensures res != null <==> Parse(str).Some? && AllAllocated(enough, |Kept(Gaps(str, 0, AMPERSAND))|)
    ensures res != null ==> fresh(res) && res.Valid() && res.contents == Values(Parse(str).value)
  {
    hide Kept, Gaps, StringAt, ParsePair, ParsePairs, Linked, Holds, UniqueNames, Mean;
    if str == [] {
      return null;
    }
    var line := SplitString(str, AMPERSAND, enough(0));
    ghost var pairs := Kept(Gaps(str, 0, AMPERSAND));
    if !enough(0) || !enough(1) {
      return null;
    }
    ghost var text: seq<char>, ptrs: seq<nat> := line.text[..], line.parts[..];
    var attrs := new Attrs();
    NoPairs(pairs);
    var k := 0;
    while k < line.numParts
      invariant k <= |pairs| && attrs.Valid() && fresh(attrs) && forall e :: e in attrs.entries ==> fresh(e)
      invariant line.text[..] == text && line.parts[..] == ptrs
      invariant Mean(attrs.contents, pairs[..k]) && forall i: nat :: i < k + 2 ==> enough(i)
    {
      var ok := AddPair(attrs, StringAt(line.text[..], line.parts[k]), enough(k + 2), pairs, k);
      if !ok {
        RejectsAll(pairs, k);
        return null;
      }
      k := k + 1;
    }
    assert pairs[..k] == pairs;
    MeansAll(attrs.contents, pairs);
    res := attrs;
  }

  lemma MeansAll(contents: map<string, Option<string>>, pairs: seq<string>)
    requires Mean(contents, pairs)
    ensures ParsePairs(pairs).Some? && contents == Values(ParsePairs(pairs).value)
  {
  }

  lemma NoPairs(pairs: seq<string>)
    ensures Mean(map[], pairs[..0])
  {
  }

  lemma RejectsAll(pairs: seq<string>, k: nat)
    requires k < |pairs|
    ensures ParsePair(pairs[k]).None? ==> ParsePairs(pairs).None?
  {
    AcceptedIff(pairs);
  }
}
