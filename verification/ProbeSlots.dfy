/** The slot array of utils/hashtable.c as a sequence, and what it means for it to hold a finite map. */
module ProbeSlots {
  import opened Basics
  import opened Bits

  const MAX_ITERATIONS: nat := 10
  const MAX_INCREMENT: nat := 10000

  /** A slot: `data` is None where the source has a NULL pointer. */
  datatype Entry<+D> = Entry(key: int, data: Option<D>)

  /** hash() of a key under a salt. */
  type HashFn = (int, nat) -> nat

  /** The index of probe i for a key: KEY_TO_INDEX, plus i, modulo the table size. */
  function Slot(hash: HashFn, salt: nat, total: nat, key: int, i: nat): (j: nat)
    requires total >= 1
    ensures j < total
  {
    (hash(key, salt) % total + i) % total
  }

  /** The first probe is the slot of the key's hash value. */
  lemma FirstProbe(hash: HashFn, salt: nat, total: nat, key: int)
    requires total >= 1
    ensures Slot(hash, salt, total, key, 0) == hash(key, salt) % total
  {
    var home := hash(key, salt) % total;
    DivModUnique(home, total, 0, home);
  }

  /** Each further probe is the next slot, and the first one of the table after the last. */
  lemma ProbesAreConsecutive(hash: HashFn, salt: nat, total: nat, key: int, i: nat)
    requires total >= 1
    ensures Slot(hash, salt, total, key, i + 1)
         == if Slot(hash, salt, total, key, i) + 1 == total then 0 else Slot(hash, salt, total, key, i) + 1
  {
    var at, next := Slot(hash, salt, total, key, i), Slot(hash, salt, total, key, i + 1);
    var x := hash(key, salt) % total + i;
    assert at == x % total;
    assert next == (x + 1) % total;
    NextRemainder(x, total);
  }

  lemma NextRemainder(x: nat, m: nat)
    requires m >= 1
    ensures (x + 1) % m == if x % m + 1 == m then 0 else x % m + 1
  {
    hide *;
    var q, r := x / m, x % m;
    DivMod(x, m);
    if r + 1 == m {
      OneMoreMultiple(q, m);
      DivModUnique(x + 1, m, q + 1, 0);
    } else {
      DivModUnique(x + 1, m, q, r + 1);
    }
  }

  lemma OneMoreMultiple(q: nat, m: nat)
    ensures (q + 1) * m == q * m + m
  {
  }

  /** Slot j is one of the ten probes of the key. */
  ghost predicate InWindow(hash: HashFn, salt: nat, total: nat, key: int, j: nat)
    requires total >= 1
  {
    exists i: nat :: i < MAX_ITERATIONS && Slot(hash, salt, total, key, i) == j
  }

  /** Probe i reaches slot j of a table that is no smaller than the distance between them. */
  lemma {:induction false} ProbeReaches(hash: HashFn, salt: nat, total: nat, key: int, j: nat) returns (i: nat)
    requires j < total
    ensures i < total && Slot(hash, salt, total, key, i) == j
  {
    var home := hash(key, salt) % total;
    i := if j >= home then j - home else j - home + total;
    DivModUnique(home + i, total, if j >= home then 0 else 1, j);
  }

  /** A table of at most ten slots is probed as a whole; in a larger one ten different slots are. */
  lemma WindowSize(hash: HashFn, salt: nat, total: nat, key: int)
    requires total >= 1
    ensures total <= 10 ==> forall j: nat :: j < total ==> InWindow(hash, salt, total, key, j)
    ensures total >= 10 ==> forall i, j :: 0 <= i < j < 10 ==>
              Slot(hash, salt, total, key, i) != Slot(hash, salt, total, key, j)
    ensures forall j: nat {:trigger InWindow(hash, salt, total, key, j)} :: InWindow(hash, salt, total, key, j) <==>
              exists i :: 0 <= i < 10 && Slot(hash, salt, total, key, i) == j
  {
    forall j: nat | total <= 10 && j < total
      ensures InWindow(hash, salt, total, key, j)
    {
      var i := ProbeReaches(hash, salt, total, key, j);
    }
    forall i, j | total >= 10 && 0 <= i < j < 10
      ensures Slot(hash, salt, total, key, i) != Slot(hash, salt, total, key, j)
    {
      NearbyRemainders(hash(key, salt) % total, total, i, j);
    }
  }

  lemma NearbyRemainders(home: nat, total: nat, i: nat, j: nat)
    requires home < total && i < j < i + total
    ensures (home + i) % total != (home + j) % total
  {
    var q, r := (home + i) / total, (home + i) % total;
    assert home + i == q * total + r;
    if (home + j) % total == r {
      var q' := (home + j) / total;
      assert home + j == q' * total + r;
      if q' > q { MultipleGap(total, q', q); } else if q > q' { MultipleGap(total, q, q'); }
    }
  }

  predicate Live<D>(e: Entry<D>) {
    e.data.Some?
  }

  ghost predicate Holds<D>(es: seq<Entry<D>>, key: int) {
    exists j :: 0 <= j < |es| && Live(es[j]) && es[j].key == key
  }

  /** The slots hold exactly the map m: dead slots have key 0, live keys are unique, nonzero and near home. */
  ghost predicate Sound<D>(es: seq<Entry<D>>, hash: HashFn, salt: nat, m: map<int, D>) {
    && |es| >= 1
    && (forall j {:trigger es[j]} :: 0 <= j < |es| ==> (Live(es[j]) <==> es[j].key != 0))
    && (forall j {:trigger es[j]} :: 0 <= j < |es| && Live(es[j]) ==>
          && es[j].key in m && m[es[j].key] == es[j].data.value
          && InWindow(hash, salt, |es|, es[j].key, j))
    && (forall k {:trigger k in m} :: k in m ==> Holds(es, k))
    && (forall i, j {:trigger es[i], es[j]} :: 0 <= i < j < |es| && Live(es[i]) ==> es[i].key != es[j].key)
  }

  /** Fresh zeroed slots hold the empty map. */
  lemma EmptySlotsAreSound<D>(es: seq<Entry<D>>, hash: HashFn, salt: nat)
    requires |es| >= 1 && forall j :: 0 <= j < |es| ==> es[j] == Entry(0, None)
    ensures Sound(es, hash, salt, map[])
  {
  }

  lemma SoundAfterInsert<D>(es: seq<Entry<D>>, hash: HashFn, salt: nat, m: map<int, D>, j: nat, key: int, d: D)
    requires Sound(es, hash, salt, m) && key != 0 && key !in m
    requires j < |es| && !Live(es[j]) && InWindow(hash, salt, |es|, key, j)
    ensures Sound(es[j := Entry(key, Some(d))], hash, salt, m[key := d])
  {
    var after := es[j := Entry(key, Some(d))];
    forall k | k in m[key := d]
      ensures Holds(after, k)
    {
      if k == key {
        assert Live(after[j]) && after[j].key == key;
      } else {
        assert Holds(es, k);
        var x :| 0 <= x < |es| && Live(es[x]) && es[x].key == k;
        assert Live(after[x]) && after[x].key == k;
      }
    }
  }

  lemma SoundAfterErase<D>(es: seq<Entry<D>>, hash: HashFn, salt: nat, m: map<int, D>, j: nat)
    requires Sound(es, hash, salt, m) && j < |es| && Live(es[j])
    ensures Sound(es[j := Entry(0, None)], hash, salt, m - {es[j].key})
  {
    var after := es[j := Entry(0, None)];
    forall k | k in m - {es[j].key}
      ensures Holds(after, k)
    {
      assert Holds(es, k);
      var x :| 0 <= x < |es| && Live(es[x]) && es[x].key == k;
      assert Live(after[x]) && after[x].key == k;
    }
  }

  // ---- visiting the live slots in index order

  ghost function LiveItems<D>(es: seq<Entry<D>>, n: nat): (items: seq<(int, D)>)
    requires n <= |es|
  {
    if n == 0 then []
    else LiveItems(es, n - 1) + (if Live(es[n - 1]) then [(es[n - 1].key, es[n - 1].data.value)] else [])
  }

  ghost function KeysOf<D>(items: seq<(int, D)>): set<int> {
    set i | 0 <= i < |items| :: items[i].0
  }

  ghost predicate KeysDistinct<D>(items: seq<(int, D)>) {
    forall i, j :: 0 <= i < j < |items| ==> items[i].0 != items[j].0
  }

  ghost function LiveKeys<D>(es: seq<Entry<D>>, n: nat): set<int>
    requires n <= |es|
  {
    set j | 0 <= j < n && Live(es[j]) :: es[j].key
  }

  lemma LiveKeysStep<D>(es: seq<Entry<D>>, n: nat)
    requires 0 < n <= |es|
    ensures LiveKeys(es, n) == LiveKeys(es, n - 1) + (if Live(es[n - 1]) then {es[n - 1].key} else {})
  {
    forall k | k in LiveKeys(es, n) && k !in LiveKeys(es, n - 1)
      ensures Live(es[n - 1]) && k == es[n - 1].key
    {
      var j :| 0 <= j < n && Live(es[j]) && es[j].key == k;
      assert j == n - 1;
    }
  }

  lemma {:induction false} LiveItemsUpTo<D>(es: seq<Entry<D>>, hash: HashFn, salt: nat, m: map<int, D>, n: nat)
    requires Sound(es, hash, salt, m) && n <= |es|
    ensures KeysDistinct(LiveItems(es, n))
    ensures forall i :: 0 <= i < |LiveItems(es, n)| ==>
              LiveItems(es, n)[i].0 in m && LiveItems(es, n)[i].1 == m[LiveItems(es, n)[i].0]
    ensures KeysOf(LiveItems(es, n)) == LiveKeys(es, n)
  {
    if n > 0 {
      LiveItemsUpTo(es, hash, salt, m, n - 1);
      LiveKeysStep(es, n);
      var before, items := LiveItems(es, n - 1), LiveItems(es, n);
      if Live(es[n - 1]) {
        var item := (es[n - 1].key, es[n - 1].data.value);
        assert items == before + [item];
        assert item.0 !in KeysOf(before);
        KeysOfAppend(before, item);
      } else {
        assert items == before;
      }
    }
  }

  lemma KeysOfAppend<D>(items: seq<(int, D)>, item: (int, D))
    ensures KeysOf(items + [item]) == KeysOf(items) + {item.0}
    ensures KeysDistinct(items) && item.0 !in KeysOf(items) ==> KeysDistinct(items + [item])
  {
    var after := items + [item];
    forall k | k in KeysOf(items) + {item.0}
      ensures k in KeysOf(after)
    {
      if k == item.0 {
        assert after[|items|].0 == k;
      } else {
        var i :| 0 <= i < |items| && items[i].0 == k;
        assert after[i].0 == k;
      }
    }
  }

  lemma {:induction false} DistinctKeysCount<D>(items: seq<(int, D)>)
    requires KeysDistinct(items)
    ensures |KeysOf(items)| == |items|
  {
    if items != [] {
      var n := |items| - 1;
      var front := items[..n];
      DistinctKeysCount(front);
      KeysOfAppend(front, items[n]);
      assert items == front + [items[n]];
      assert items[n].0 !in KeysOf(front);
    }
  }

  /** The live slots are exactly the map's pairs, each once; so their number is the map's size. */
  lemma LiveItemsAreTheMap<D>(es: seq<Entry<D>>, hash: HashFn, salt: nat, m: map<int, D>)
    requires Sound(es, hash, salt, m)
    ensures var items := LiveItems(es, |es|);
      && KeysDistinct(items) && KeysOf(items) == m.Keys && |items| == |m|
      && forall i :: 0 <= i < |items| ==> items[i].0 in m && items[i].1 == m[items[i].0]
  {
    LiveItemsUpTo(es, hash, salt, m, |es|);
    forall k | k in m
      ensures k in KeysOf(LiveItems(es, |es|))
    {
      assert Holds(es, k);
    }
    DistinctKeysCount(LiveItems(es, |es|));
    assert KeysOf(LiveItems(es, |es|)) == m.Keys;
  }

  // ---- the two probe loops, as functions

  /** The first probe from i on whose slot has the key, or 10. */
  ghost function KeyProbe<D>(es: seq<Entry<D>>, hash: HashFn, salt: nat, key: int, i: nat): nat
    requires |es| >= 1
    decreases MAX_ITERATIONS - i
  {
    if i >= MAX_ITERATIONS || es[Slot(hash, salt, |es|, key, i)].key == key then i
    else KeyProbe(es, hash, salt, key, i + 1)
  }

  /** The first probe from i on whose slot is dead, or 10. */
  ghost function HoleProbe<D>(es: seq<Entry<D>>, hash: HashFn, salt: nat, key: int, i: nat): nat
    requires |es| >= 1
    decreases MAX_ITERATIONS - i
  {
    if i >= MAX_ITERATIONS || !Live(es[Slot(hash, salt, |es|, key, i)]) then i
    else HoleProbe(es, hash, salt, key, i + 1)
  }

  lemma {:induction false} KeyProbeIsFirst<D>(es: seq<Entry<D>>, hash: HashFn, salt: nat, key: int, i: nat, p: nat)
    requires |es| >= 1 && i <= p <= MAX_ITERATIONS
    requires p < MAX_ITERATIONS ==> es[Slot(hash, salt, |es|, key, p)].key == key
    requires forall x :: i <= x < p ==> es[Slot(hash, salt, |es|, key, x)].key != key
    ensures KeyProbe(es, hash, salt, key, i) == p
    decreases p - i
  {
    if i < p {
      KeyProbeIsFirst(es, hash, salt, key, i + 1, p);
    }
  }

  lemma {:induction false} ProbeFacts<D>(es: seq<Entry<D>>, hash: HashFn, salt: nat, key: int, i: nat)
    requires |es| >= 1 && i <= MAX_ITERATIONS
    ensures var p := KeyProbe(es, hash, salt, key, i);
      && i <= p <= MAX_ITERATIONS
      && (p < MAX_ITERATIONS ==> es[Slot(hash, salt, |es|, key, p)].key == key)
      && forall x :: i <= x < p ==> es[Slot(hash, salt, |es|, key, x)].key != key
    ensures var p := HoleProbe(es, hash, salt, key, i);
      && i <= p <= MAX_ITERATIONS
      && (p < MAX_ITERATIONS ==> !Live(es[Slot(hash, salt, |es|, key, p)]))
      && forall x :: i <= x < p ==> Live(es[Slot(hash, salt, |es|, key, x)])
    decreases MAX_ITERATIONS - i
  {
    hide Slot, Live;
    if i < MAX_ITERATIONS {
      ProbeFacts(es, hash, salt, key, i + 1);
    }
  }

  /** The keys in the slots of the first n probes. */
  ghost function ProbedKeys<D>(es: seq<Entry<D>>, hash: HashFn, salt: nat, key: int, n: nat): set<int>
    requires |es| >= 1
  {
    set i | 0 <= i < n :: es[Slot(hash, salt, |es|, key, i)].key
  }

  /** Two different probes, in a table large enough, see two different keys of the map. */
  lemma ProbesSeeTwoKeys<D>(es: seq<Entry<D>>, hash: HashFn, salt: nat, m: map<int, D>, key: int, i: nat, j: nat)
    requires Sound(es, hash, salt, m) && i < j < |es|
    requires Live(es[Slot(hash, salt, |es|, key, i)]) && Live(es[Slot(hash, salt, |es|, key, j)])
    ensures es[Slot(hash, salt, |es|, key, i)].key != es[Slot(hash, salt, |es|, key, j)].key
  {
    NearbyRemainders(hash(key, salt) % |es|, |es|, i, j);
  }

  lemma ProbeSeesKey<D>(es: seq<Entry<D>>, hash: HashFn, salt: nat, m: map<int, D>, key: int, i: nat)
    requires Sound(es, hash, salt, m) && Live(es[Slot(hash, salt, |es|, key, i)])
    ensures es[Slot(hash, salt, |es|, key, i)].key in m
  {
  }

  lemma {:induction false} ProbedKeysCount<D>(es: seq<Entry<D>>, hash: HashFn, salt: nat, m: map<int, D>, key: int,
                                              n: nat)
    requires |es| >= 1 && Sound(es, hash, salt, m) && n <= |es|
    requires forall i :: 0 <= i < n ==> Live(es[Slot(hash, salt, |es|, key, i)])
    ensures |ProbedKeys(es, hash, salt, key, n)| == n && ProbedKeys(es, hash, salt, key, n) <= m.Keys
  {
    hide Sound, Slot, Live;
    if n > 0 {
      ProbedKeysCount(es, hash, salt, m, key, n - 1);
      ProbeSeesKey(es, hash, salt, m, key, n - 1);
      var k := es[Slot(hash, salt, |es|, key, n - 1)].key;
      forall i | 0 <= i < n - 1
        ensures es[Slot(hash, salt, |es|, key, i)].key != k
      {
        ProbesSeeTwoKeys(es, hash, salt, m, key, i, n - 1);
      }
      assert ProbedKeys(es, hash, salt, key, n) == ProbedKeys(es, hash, salt, key, n - 1) + {k};
    } else {
      assert ProbedKeys(es, hash, salt, key, 0) == {};
    }
  }

  /** With fewer than ten entries, and a slot to spare, every key has a hole in its window. */
  lemma RoomBelowTen<D>(es: seq<Entry<D>>, hash: HashFn, salt: nat, m: map<int, D>, key: int)
    requires Sound(es, hash, salt, m) && |m| < 10 && |m| < |es|
    ensures HoleProbe(es, hash, salt, key, 0) < MAX_ITERATIONS
  {
    ProbeFacts(es, hash, salt, key, 0);
    if HoleProbe(es, hash, salt, key, 0) >= MAX_ITERATIONS {
      var n := if |es| < 10 then |es| else 10;
      ProbedKeysCount(es, hash, salt, m, key, n);
      SubsetIsSmaller(ProbedKeys(es, hash, salt, key, n), m.Keys);
    }
  }

  lemma {:induction false} SubsetIsSmaller<T>(a: set<T>, b: set<T>)
    requires a <= b
    ensures |a| <= |b|
  {
    assert b == a + (b - a);
  }

  /** For a sound table and a nonzero key, the key loop finds the key exactly when the map has it. */
  lemma KeyLoopDecidesMembership<D>(es: seq<Entry<D>>, hash: HashFn, salt: nat, m: map<int, D>, key: int)
    requires Sound(es, hash, salt, m) && key != 0
    ensures KeyProbe(es, hash, salt, key, 0) < MAX_ITERATIONS <==> key in m
    ensures key in m ==>
      var e := es[Slot(hash, salt, |es|, key, KeyProbe(es, hash, salt, key, 0))];
      e.key == key && e.data == Some(m[key])
  {
    ProbeFacts(es, hash, salt, key, 0);
    if key in m {
      assert Holds(es, key);
      var j :| 0 <= j < |es| && Live(es[j]) && es[j].key == key;
      assert InWindow(hash, salt, |es|, es[j].key, j);
    }
  }

  /** What hashtable_get returns for a key. */
  ghost function Lookup<D>(es: seq<Entry<D>>, hash: HashFn, salt: nat, key: int): Option<D>
    requires |es| >= 1
  {
    var p := KeyProbe(es, hash, salt, key, 0);
    if p < MAX_ITERATIONS then es[Slot(hash, salt, |es|, key, p)].data else None
  }

  /** In a sound table a lookup gives what the map says, for every key. */
  lemma LookupIsTheMap<D>(es: seq<Entry<D>>, hash: HashFn, salt: nat, m: map<int, D>, key: int)
    requires Sound(es, hash, salt, m)
    ensures Lookup(es, hash, salt, key) == if key in m then Some(m[key]) else None
  {
    ProbeFacts(es, hash, salt, key, 0);
    if key != 0 {
      KeyLoopDecidesMembership(es, hash, salt, m, key);
    } else {
      assert !Holds(es, 0);
    }
  }

  // ---- storing into the hole that find_empty found

  /** The slots after a key and its data have been stored in the first hole of the key's window. */
  ghost function Stored<D>(es: seq<Entry<D>>, hash: HashFn, salt: nat, key: int, d: D): (after: seq<Entry<D>>)
    requires |es| >= 1 && HoleProbe(es, hash, salt, key, 0) < MAX_ITERATIONS
    ensures |after| == |es|
  {
    es[Slot(hash, salt, |es|, key, HoleProbe(es, hash, salt, key, 0)) := Entry(key, Some(d))]
  }

  /** What comes before the hole in the window of any key is left alone. */
  lemma BeforeTheHole<D>(es: seq<Entry<D>>, hash: HashFn, salt: nat, key: int, d: D, k: int, x: nat)
    requires |es| >= 1 && HoleProbe(es, hash, salt, key, 0) < MAX_ITERATIONS
    requires x < HoleProbe(es, hash, salt, k, 0)
    ensures var j := Slot(hash, salt, |es|, k, x);
      Live(es[j]) && Stored(es, hash, salt, key, d)[j] == es[j]
  {
    hide Slot;
    ProbeFacts(es, hash, salt, k, 0);
    ProbeFacts(es, hash, salt, key, 0);
  }

  /** A lookup of the key stored: the new data, unless the key was there before the hole. */
  lemma LookupOfStored<D>(es: seq<Entry<D>>, hash: HashFn, salt: nat, m: map<int, D>, key: int, d: D)
    requires Sound(es, hash, salt, m) && HoleProbe(es, hash, salt, key, 0) < MAX_ITERATIONS
    ensures Lookup(Stored(es, hash, salt, key, d), hash, salt, key)
         == if key in m && KeyProbe(es, hash, salt, key, 0) < HoleProbe(es, hash, salt, key, 0)
            then Some(m[key]) else Some(d)
  {
    var h, p := HoleProbe(es, hash, salt, key, 0), KeyProbe(es, hash, salt, key, 0);
    var after := Stored(es, hash, salt, key, d);
    LookupIsTheMap(es, hash, salt, m, key);
    ProbeFacts(es, hash, salt, key, 0);
    forall x: nat | x < h
      ensures after[Slot(hash, salt, |es|, key, x)] == es[Slot(hash, salt, |es|, key, x)]
      ensures Live(es[Slot(hash, salt, |es|, key, x)])
    {
      BeforeTheHole(es, hash, salt, key, d, key, x);
    }
    hide Slot, Sound, KeyProbe, HoleProbe;
    if p < h {
      assert Live(es[Slot(hash, salt, |es|, key, p)]);
      KeyProbeIsFirst(after, hash, salt, key, 0, p);
    } else {
      KeyProbeIsFirst(after, hash, salt, key, 0, h);
    }
  }

  lemma {:induction false} SameKeyProbe<D>(es: seq<Entry<D>>, after: seq<Entry<D>>, hash: HashFn, salt: nat, k: int, i: nat)
    requires |es| == |after| >= 1 && forall j :: 0 <= j < |es| ==> (es[j].key == k <==> after[j].key == k)
    ensures KeyProbe(after, hash, salt, k, i) == KeyProbe(es, hash, salt, k, i)
    decreases MAX_ITERATIONS - i
  {
    if i < MAX_ITERATIONS {
      SameKeyProbe(es, after, hash, salt, k, i + 1);
    }
  }

  /** A lookup of any other nonzero key is not affected. */
  lemma LookupOfOthers<D>(es: seq<Entry<D>>, hash: HashFn, salt: nat, m: map<int, D>, key: int, d: D, k: int)
    requires Sound(es, hash, salt, m) && HoleProbe(es, hash, salt, key, 0) < MAX_ITERATIONS && k != key && k != 0
    ensures Lookup(Stored(es, hash, salt, key, d), hash, salt, k) == if k in m then Some(m[k]) else None
  {
    LookupIsTheMap(es, hash, salt, m, k);
    OnlyTheHoleChanges(es, hash, salt, m, key, d);
    hide Sound, Stored, Slot, HoleProbe, KeyProbe;
    SameKeyProbe(es, Stored(es, hash, salt, key, d), hash, salt, k, 0);
    ProbeFacts(es, hash, salt, k, 0);
  }

  /** Only a slot that had key 0 changes, and it gets the key stored. */
  lemma OnlyTheHoleChanges<D>(es: seq<Entry<D>>, hash: HashFn, salt: nat, m: map<int, D>, key: int, d: D)
    requires Sound(es, hash, salt, m) && HoleProbe(es, hash, salt, key, 0) < MAX_ITERATIONS
    ensures var after := Stored(es, hash, salt, key, d);
      forall j :: 0 <= j < |es| ==> after[j] == es[j] || (es[j].key == 0 && after[j].key == key)
  {
    ProbeFacts(es, hash, salt, key, 0);
  }

  /** The table stays sound exactly for a nonzero key that was absent. */
  lemma SoundAfterStoreIff<D>(es: seq<Entry<D>>, hash: HashFn, salt: nat, m: map<int, D>, key: int, d: D)
    requires Sound(es, hash, salt, m) && HoleProbe(es, hash, salt, key, 0) < MAX_ITERATIONS
    ensures key != 0 && key !in m ==> Sound(Stored(es, hash, salt, key, d), hash, salt, m[key := d])
    ensures key == 0 || key in m ==> !Sound(Stored(es, hash, salt, key, d), hash, salt, m)
  {
    ProbeFacts(es, hash, salt, key, 0);
    var h := HoleProbe(es, hash, salt, key, 0);
    var hole := Slot(hash, salt, |es|, key, h);
    var after := Stored(es, hash, salt, key, d);
    if key == 0 {
      assert Live(after[hole]) && after[hole].key == 0;
    } else if key in m {
      assert Holds(es, key);
      var x :| 0 <= x < |es| && Live(es[x]) && es[x].key == key;
      assert x != hole && after[x] == es[x] && after[hole].key == after[x].key;
    } else {
      assert InWindow(hash, salt, |es|, key, hole);
      SoundAfterInsert(es, hash, salt, m, hole, key, d);
    }
  }

  // ---- tables without holes before their entries

  /** Every key of the map comes before the first hole of its window, as after a growth step. */
  ghost predicate Tight<D>(es: seq<Entry<D>>, hash: HashFn, salt: nat, m: map<int, D>) {
    |es| >= 1 && forall k {:trigger k in m} :: k in m ==>
      KeyProbe(es, hash, salt, k, 0) < HoleProbe(es, hash, salt, k, 0)
  }

  /** If all of the first p + 1 probes are live and only the last has the key, the key comes before the hole. */
  lemma KeyBeforeHole<D>(es: seq<Entry<D>>, hash: HashFn, salt: nat, k: int, p: nat)
    requires |es| >= 1 && p < MAX_ITERATIONS && es[Slot(hash, salt, |es|, k, p)].key == k
    requires forall x :: 0 <= x < p ==> es[Slot(hash, salt, |es|, k, x)].key != k
    requires forall x :: 0 <= x <= p ==> Live(es[Slot(hash, salt, |es|, k, x)])
    ensures KeyProbe(es, hash, salt, k, 0) < HoleProbe(es, hash, salt, k, 0)
  {
    hide Slot, Live;
    KeyProbeIsFirst(es, hash, salt, k, 0, p);
    ProbeFacts(es, hash, salt, k, 0);
  }

  lemma StoredIsTight<D>(es: seq<Entry<D>>, hash: HashFn, salt: nat, m: map<int, D>, key: int, d: D)
    requires Sound(es, hash, salt, m) && key != 0 && key !in m && HoleProbe(es, hash, salt, key, 0) < MAX_ITERATIONS
    ensures var after := Stored(es, hash, salt, key, d);
      KeyProbe(after, hash, salt, key, 0) < HoleProbe(after, hash, salt, key, 0)
  {
    var h := HoleProbe(es, hash, salt, key, 0);
    var after := Stored(es, hash, salt, key, d);
    ProbeFacts(es, hash, salt, key, 0);
    forall x | 0 <= x < h
      ensures after[Slot(hash, salt, |es|, key, x)].key != key && Live(after[Slot(hash, salt, |es|, key, x)])
    {
      BeforeTheHole(es, hash, salt, key, d, key, x);
    }
    hide Slot, KeyProbe, HoleProbe;
    KeyBeforeHole(after, hash, salt, key, h);
  }

  lemma OthersStayTight<D>(es: seq<Entry<D>>, hash: HashFn, salt: nat, key: int, d: D, k: int)
    requires |es| >= 1 && HoleProbe(es, hash, salt, key, 0) < MAX_ITERATIONS
    requires KeyProbe(es, hash, salt, k, 0) < HoleProbe(es, hash, salt, k, 0)
    ensures var after := Stored(es, hash, salt, key, d);
      KeyProbe(after, hash, salt, k, 0) < HoleProbe(after, hash, salt, k, 0)
  {
    var p := KeyProbe(es, hash, salt, k, 0);
    var after := Stored(es, hash, salt, key, d);
    ProbeFacts(es, hash, salt, k, 0);
    forall x | 0 <= x <= p
      ensures after[Slot(hash, salt, |es|, k, x)] == es[Slot(hash, salt, |es|, k, x)]
      ensures Live(after[Slot(hash, salt, |es|, k, x)])
    {
      BeforeTheHole(es, hash, salt, key, d, k, x);
    }
    hide Slot, KeyProbe, HoleProbe;
    KeyBeforeHole(after, hash, salt, k, p);
  }

  /** Storing an absent key in its first hole keeps a table tight. */
  lemma TightAfterStore<D>(es: seq<Entry<D>>, hash: HashFn, salt: nat, m: map<int, D>, key: int, d: D)
    requires Sound(es, hash, salt, m) && Tight(es, hash, salt, m)
    requires key != 0 && key !in m && HoleProbe(es, hash, salt, key, 0) < MAX_ITERATIONS
    ensures Tight(Stored(es, hash, salt, key, d), hash, salt, m[key := d])
  {
    hide KeyProbe, HoleProbe, Sound;
    StoredIsTight(es, hash, salt, m, key, d);
    forall k | k in m
      ensures var after := Stored(es, hash, salt, key, d);
        KeyProbe(after, hash, salt, k, 0) < HoleProbe(after, hash, salt, k, 0)
    {
      OthersStayTight(es, hash, salt, key, d, k);
    }
  }

  /**
   * Putting a key that is present: a later get sees the new data exactly when a hole comes before the old entry in
   * the table as it was. `room` is the table that the put stores into: the same one when the window has a hole, and
   * a tight one, after growth, when it has none.
   */
  lemma PutOfPresentKey<D>(es: seq<Entry<D>>, room: seq<Entry<D>>, hash: HashFn, salt: nat, m: map<int, D>, key: int, d: D)
    requires Sound(es, hash, salt, m) && Sound(room, hash, salt, m) && key in m
    requires HoleProbe(room, hash, salt, key, 0) < MAX_ITERATIONS
    requires room == es || (HoleProbe(es, hash, salt, key, 0) >= MAX_ITERATIONS && Tight(room, hash, salt, m))
    ensures Lookup(Stored(room, hash, salt, key, d), hash, salt, key)
         == if HoleProbe(es, hash, salt, key, 0) < KeyProbe(es, hash, salt, key, 0) then Some(d) else Some(m[key])
  {
    hide KeyProbe, HoleProbe;
    ProbeFacts(es, hash, salt, key, 0);
    NotBoth(es, hash, salt, m, key);
    LookupOfStored(room, hash, salt, m, key, d);
  }

  lemma NotBoth<D>(es: seq<Entry<D>>, hash: HashFn, salt: nat, m: map<int, D>, key: int)
    requires Sound(es, hash, salt, m) && key in m
    ensures KeyProbe(es, hash, salt, key, 0) != HoleProbe(es, hash, salt, key, 0)
  {
    ProbeFacts(es, hash, salt, key, 0);
    KeyLoopDecidesMembership(es, hash, salt, m, key);
  }

  // ---- both outcomes at an input

  /** Two slots, both in the window of key 5. */
  const ONE_PLACE: HashFn := (key, salt) => 0

  /** The hole comes first: the new data is seen. */
  lemma PutIsSeen()
    ensures var es := [Entry(0, None), Entry(5, Some(1))];
      && Sound(es, ONE_PLACE, 0, map[5 := 1]) && HoleProbe(es, ONE_PLACE, 0, 5, 0) == 0
      && Lookup(Stored(es, ONE_PLACE, 0, 5, 2), ONE_PLACE, 0, 5) == Some(2)
  {
    var es := [Entry(0, None), Entry(5, Some(1))];
    assert Slot(ONE_PLACE, 0, 2, 5, 1) == 1;
    assert InWindow(ONE_PLACE, 0, 2, 5, 1);
    assert Live(es[1]);
  }

  /** The old entry comes first: the new data is stored and never seen. */
  lemma PutIsHidden()
    ensures var es := [Entry(5, Some(1)), Entry(0, None)];
      && Sound(es, ONE_PLACE, 0, map[5 := 1]) && HoleProbe(es, ONE_PLACE, 0, 5, 0) == 1
      && Stored(es, ONE_PLACE, 0, 5, 2) == [Entry(5, Some(1)), Entry(5, Some(2))]
      && Lookup(Stored(es, ONE_PLACE, 0, 5, 2), ONE_PLACE, 0, 5) == Some(1)
  {
    var es := [Entry(5, Some(1)), Entry(0, None)];
    assert Slot(ONE_PLACE, 0, 2, 5, 0) == 0 && Slot(ONE_PLACE, 0, 2, 5, 1) == 1;
    assert InWindow(ONE_PLACE, 0, 2, 5, 0);
    assert Live(es[0]);
  }
}
