/** The linear-probing hash table of utils/hashtable.c. */
module ProbeTable {
  import opened Basics
  import opened Bits
  import opened ProbeSlots

  /**
   * Which allocations succeed during one call: none beyond `limit` slots, and below that the number of slots
   * decides. A call never asks for the same number twice, so this leaves every outcome open.
   */
  datatype Memory = Memory(limit: nat, enough: nat -> bool) {
    predicate Allocates(n: nat) {
      n <= limit && enough(n)
    }
  }

  /** mem_alloc: zeroed slots, or null. */
  method MemAlloc<D>(n: nat, memory: Memory) returns (a: array?<Entry<D>>)
    ensures a != null <==> memory.Allocates(n)
    ensures a != null ==> fresh(a) && a[..] == Zeroed(n)
  {
    if memory.Allocates(n) {
      a := new Entry<D>[n](_ => Entry(0, None));
    } else {
      a := null;
    }
  }

  ghost function Zeroed<D>(n: nat): seq<Entry<D>> {
    seq(n, _ => Entry(0, None))
  }

  /** The first n slots of es copied into `size` fresh slots, None once an entry finds no hole in its window. */
  ghost function Copied<D>(es: seq<Entry<D>>, n: nat, hash: HashFn, salt: nat, size: nat): Option<seq<Entry<D>>>
    requires n <= |es| && size >= 1
    ensures Copied(es, n, hash, salt, size).Some? ==> |Copied(es, n, hash, salt, size).value| == size
  {
    if n == 0 then Some(Zeroed(size)) else
      var before := Copied(es, n - 1, hash, salt, size);
      if before.None? || !Live(es[n - 1]) then before else
        var p := HoleProbe(before.value, hash, salt, es[n - 1].key, 0);
        if p >= MAX_ITERATIONS then None
        else Some(before.value[Slot(hash, salt, size, es[n - 1].key, p) := es[n - 1]])
  }

  /** A table of this size takes all entries, and there are some. */
  ghost predicate Fits<D>(es: seq<Entry<D>>, hash: HashFn, salt: nat, size: nat)
    requires size >= 1
  {
    Copied(es, |es|, hash, salt, size).Some? && LiveItems(es, |es|) != []
  }

  /** The first n - 1 growth steps were allocated, in vain. */
  ghost predicate TriedBefore<D>(es: seq<Entry<D>>, hash: HashFn, salt: nat, memory: Memory, n: nat) {
    |es| >= 1 && forall k :: 1 <= k < n ==> InVain(es, hash, salt, memory, k)
  }

  ghost predicate InVain<D>(es: seq<Entry<D>>, hash: HashFn, salt: nat, memory: Memory, k: nat)
    requires |es| >= 1
  {
    GrownIsLarger(|es|, k);
    memory.Allocates(Grown(|es|, k)) && !Fits(es, hash, salt, Grown(|es|, k))
  }

  /** Growing ends with a failed allocation, before any size fits. */
  ghost predicate Stuck<D>(es: seq<Entry<D>>, hash: HashFn, salt: nat, memory: Memory) {
    exists n: nat :: n >= 1 && TriedBefore(es, hash, salt, memory, n) && !memory.Allocates(Grown(|es|, n))
  }

  /** find_key. */
  method FindKey<D>(entries: array<Entry<D>>, hash: HashFn, salt: nat, key: int) returns (index: int)
    requires entries.Length >= 1
    ensures var p := KeyProbe(entries[..], hash, salt, key, 0);
      index == if p < MAX_ITERATIONS then Slot(hash, salt, entries.Length, key, p) else PLCTAG_ERR_NOT_FOUND
  {
    var initial := hash(key, salt) % entries.Length;
    var iteration := 0;
    index := 0;
    while iteration < MAX_ITERATIONS
      invariant iteration <= MAX_ITERATIONS
      invariant KeyProbe(entries[..], hash, salt, key, iteration) == KeyProbe(entries[..], hash, salt, key, 0)
    {
      index := (initial + iteration) % entries.Length;
      if entries[index].key == key {
        break;
      }
      iteration := iteration + 1;
    }
    if iteration >= MAX_ITERATIONS {
      index := PLCTAG_ERR_NOT_FOUND;
    }
  }

  /** find_empty. */
  method FindEmpty<D>(entries: array<Entry<D>>, hash: HashFn, salt: nat, key: int) returns (index: int)
    requires entries.Length >= 1
    ensures var p := HoleProbe(entries[..], hash, salt, key, 0);
      index == if p < MAX_ITERATIONS then Slot(hash, salt, entries.Length, key, p) else PLCTAG_ERR_NOT_FOUND
  {
    var initial := hash(key, salt) % entries.Length;
    var iteration := 0;
    index := 0;
    while iteration < MAX_ITERATIONS
      invariant iteration <= MAX_ITERATIONS
      invariant HoleProbe(entries[..], hash, salt, key, iteration) == HoleProbe(entries[..], hash, salt, key, 0)
    {
      index := (initial + iteration) % entries.Length;
      if !Live(entries[index]) {
        break;
      }
      iteration := iteration + 1;
    }
    if iteration >= MAX_ITERATIONS {
      index := PLCTAG_ERR_NOT_FOUND;
    }
  }

  /** What the first `n` slots of a table contribute to the map. */
  ghost function Restricted<D>(m: map<int, D>, es: seq<Entry<D>>, n: nat): map<int, D>
    requires n <= |es|
  {
    map k | k in m && k in LiveKeys(es, n) :: m[k]
  }

  lemma RestrictedStep<D>(m: map<int, D>, es: seq<Entry<D>>, n: nat, hash: HashFn, salt: nat)
    requires 0 < n <= |es| && Sound(es, hash, salt, m)
    ensures !Live(es[n - 1]) ==> Restricted(m, es, n) == Restricted(m, es, n - 1)
    ensures Live(es[n - 1]) ==>
      && es[n - 1].key !in Restricted(m, es, n - 1)
      && Restricted(m, es, n) == Restricted(m, es, n - 1)[es[n - 1].key := es[n - 1].data.value]
  {
    LiveKeysStep(es, n);
  }

  lemma RestrictedEnds<D>(m: map<int, D>, es: seq<Entry<D>>, hash: HashFn, salt: nat)
    requires Sound(es, hash, salt, m)
    ensures Restricted(m, es, 0) == map[] && Restricted(m, es, |es|) == m
  {
    LiveItemsAreTheMap(es, hash, salt, m);
    LiveItemsUpTo(es, hash, salt, m, |es|);
  }

  /** One live entry of the old table goes to the new one, if its window has a hole. */
  method CopyEntry<D>(e: Entry<D>, to: array<Entry<D>>, hash: HashFn, salt: nat, ghost m: map<int, D>)
    returns (index: int)
    requires Live(e) && e.key != 0 && e.key !in m && Sound(to[..], hash, salt, m) && Tight(to[..], hash, salt, m)
    modifies to
    ensures var p := HoleProbe(old(to[..]), hash, salt, e.key, 0);
      if p < MAX_ITERATIONS then
        && index >= 0 && to[..] == old(to[..])[Slot(hash, salt, to.Length, e.key, p) := e]
        && Sound(to[..], hash, salt, m[e.key := e.data.value]) && Tight(to[..], hash, salt, m[e.key := e.data.value])
      else
        index == PLCTAG_ERR_NOT_FOUND
  {
    hide Tight;
    ProbeFacts(to[..], hash, salt, e.key, 0);
    index := FindEmpty(to, hash, salt, e.key);
    if index != PLCTAG_ERR_NOT_FOUND {
      SoundAfterStoreIff(to[..], hash, salt, m, e.key, e.data.value);
      TightAfterStore(to[..], hash, salt, m, e.key, e.data.value);
      to[index] := e;
    }
  }

  /** The copying loop of expand_table: the last find_empty result, and how many entries were copied. */
  method Rehash<D>(from: array<Entry<D>>, to: array<Entry<D>>, hash: HashFn, salt: nat, ghost m: map<int, D>)
    returns (index: int, used: nat)
    requires from != to && Sound(from[..], hash, salt, m) && Sound(to[..], hash, salt, map[])
    requires to.Length >= 1 && to[..] == Zeroed(to.Length)
    modifies to
    ensures index != PLCTAG_ERR_NOT_FOUND <==> Fits(from[..], hash, salt, to.Length)
    ensures index != PLCTAG_ERR_NOT_FOUND ==>
              && Sound(to[..], hash, salt, m) && Tight(to[..], hash, salt, m)
              && used == |LiveItems(from[..], from.Length)|
              && Some(to[..]) == Copied(from[..], from.Length, hash, salt, to.Length)
  {
    hide Sound, Tight, Restricted, LiveKeys, HoleProbe, KeyProbe, Zeroed;
    index, used := PLCTAG_ERR_NOT_FOUND, 0;
    ghost var es := from[..];
    LiveMeansNonzero(es, hash, salt, m);
    RestrictedEnds(m, es, hash, salt);
    NothingIsTight(to[..], hash, salt);
    ghost var part := map[];
    var i := 0;
    while i < from.Length
      invariant 0 <= i <= from.Length && from[..] == es && part == Restricted(m, es, i)
      invariant Sound(to[..], hash, salt, part) && Tight(to[..], hash, salt, part) && used == |LiveItems(es, i)|
      invariant Some(to[..]) == Copied(es, i, hash, salt, to.Length)
      invariant index == PLCTAG_ERR_NOT_FOUND <==> LiveItems(es, i) == []
    {
      RestrictedStep(m, es, i + 1, hash, salt);
      if Live(from[i]) {
        index := CopyEntry(from[i], to, hash, salt, part);
        if index == PLCTAG_ERR_NOT_FOUND {
          CopiedNone(es, i + 1, from.Length, hash, salt, to.Length);
          return;
        }
        part := part[from[i].key := from[i].data.value];
        used := used + 1;
      }
      i := i + 1;
    }
  }

  lemma NothingIsTight<D>(es: seq<Entry<D>>, hash: HashFn, salt: nat)
    requires |es| >= 1
    ensures Tight(es, hash, salt, map[])
  {
  }

  lemma LiveMeansNonzero<D>(es: seq<Entry<D>>, hash: HashFn, salt: nat, m: map<int, D>)
    requires Sound(es, hash, salt, m)
    ensures forall j :: 0 <= j < |es| ==> (Live(es[j]) <==> es[j].key != 0)
    ensures forall j :: 0 <= j < |es| && Live(es[j]) ==> es[j].key in m
  {
  }

  /** One entry without a hole ends the copying. */
  lemma {:induction false} CopiedNone<D>(es: seq<Entry<D>>, i: nat, n: nat, hash: HashFn, salt: nat, size: nat)
    requires i <= n <= |es| && size >= 1 && Copied(es, i, hash, salt, size).None?
    ensures Copied(es, n, hash, salt, size).None?
    decreases n
  {
    if i < n {
      CopiedNone(es, i, n - 1, hash, salt, size);
    }
  }

  /** The table size after n growth steps of expand_table. */
  function Grown(total: nat, n: nat): nat {
    if n == 0 then total
    else
      var t := Grown(total, n - 1);
      t + (if t < MAX_INCREMENT then t else MAX_INCREMENT)
  }

  lemma {:induction false} GrownIsLarger(total: nat, n: nat)
    requires total >= 1
    ensures Grown(total, n) >= total + n
  {
    if n > 0 {
      GrownIsLarger(total, n - 1);
    }
  }

  /** One growth step doubles the table; from 10000 slots on it adds 10000. */
  lemma GrowthStep(total: nat, n: nat)
    ensures Grown(total, 0) == total
    ensures Grown(total, n) < 10000 ==> Grown(total, n + 1) == 2 * Grown(total, n)
    ensures Grown(total, n) >= 10000 ==> Grown(total, n + 1) == Grown(total, n) + 10000
  {
  }

  /** So n steps multiply the size by 2^n as long as that stays below 20000. */
  lemma {:induction false} GrownDoubles(total: nat, n: nat)
    requires n > 0 ==> total * Pow2(n - 1) < 10000
    ensures Grown(total, n) == total * Pow2(n)
  {
    if n > 1 {
      assert total * Pow2(n - 1) == 2 * (total * Pow2(n - 2));
    }
    if n > 0 {
      GrownDoubles(total, n - 1);
      assert total * Pow2(n) == 2 * (total * Pow2(n - 1));
    }
  }

  lemma ZeroedIsSound<D>(es: seq<Entry<D>>, hash: HashFn, salt: nat)
    requires |es| >= 1 && es == Zeroed(|es|)
    ensures Sound(es, hash, salt, map[])
  {
    EmptySlotsAreSound(es, hash, salt);
  }

  lemma InVainBefore<D>(es: seq<Entry<D>>, hash: HashFn, salt: nat, memory: Memory, n: nat, k: nat)
    requires 1 <= k < n && TriedBefore(es, hash, salt, memory, n)
    ensures Grown(|es|, k) >= 1 && memory.Allocates(Grown(|es|, k)) && !Fits(es, hash, salt, Grown(|es|, k))
  {
    assert InVain(es, hash, salt, memory, k);
  }

  /** A size that fits is reached before any allocation fails. */
  lemma NotStuck<D>(es: seq<Entry<D>>, hash: HashFn, salt: nat, memory: Memory, n: nat)
    requires n >= 1 && TriedBefore(es, hash, salt, memory, n)
    requires Grown(|es|, n) >= 1 && memory.Allocates(Grown(|es|, n)) && Fits(es, hash, salt, Grown(|es|, n))
    ensures !Stuck(es, hash, salt, memory)
  {
    hide Fits;
    if k: nat :| k >= 1 && TriedBefore(es, hash, salt, memory, k) && !memory.Allocates(Grown(|es|, k)) {
      if k < n {
        InVainBefore(es, hash, salt, memory, n, k);
      } else if n < k {
        InVainBefore(es, hash, salt, memory, k, n);
      }
    }
  }

  /** An empty table is never expanded: its growth goes on until an allocation fails. */
  lemma FitsHasEntries<D>(es: seq<Entry<D>>, hash: HashFn, salt: nat, m: map<int, D>, size: nat)
    requires Sound(es, hash, salt, m) && size >= 1 && Fits(es, hash, salt, size)
    ensures m != map[]
  {
    LiveItemsAreTheMap(es, hash, salt, m);
  }

  /** When find_empty fails, the table has entries; this is what lets the loop of expand_table end. */
  lemma FullWindowHasEntries<D>(es: seq<Entry<D>>, hash: HashFn, salt: nat, m: map<int, D>, key: int)
    requires Sound(es, hash, salt, m) && HoleProbe(es, hash, salt, key, 0) >= MAX_ITERATIONS
    ensures m != map[]
  {
    ProbeFacts(es, hash, salt, key, 0);
    assert es[Slot(hash, salt, |es|, key, 0)].key in m;
  }

  class HashTable<D> {
    const hash: HashFn
    const salt: nat
    /** No table has more slots than this: the byte count of an allocation is a C int. */
    const limit: nat

    var totalEntries: nat
    var usedEntries: int
    var entries: array<Entry<D>>

    /** The finite map that the table stands for. */
    ghost var contents: map<int, D>

    ghost predicate Valid()
      reads this, entries
    {
      && entries.Length == totalEntries && 1 <= totalEntries <= limit
      && Sound(entries[..], hash, salt, contents)
      && usedEntries == |contents|
    }

    /** The fields of a new table. */
    constructor (initialCapacity: nat, hash: HashFn, salt: nat, limit: nat)
      requires 1 <= initialCapacity <= limit
      ensures Valid() && contents == map[] && fresh(entries)
      ensures this.hash == hash && this.salt == salt && this.limit == limit && totalEntries == initialCapacity
    {
      this.hash, this.salt, this.limit := hash, salt, limit;
      totalEntries, usedEntries, contents := initialCapacity, 0, map[];
      entries := new Entry<D>[initialCapacity](_ => Entry(0, None));
      new;
      EmptySlotsAreSound(entries[..], hash, salt);
    }

    /** hashtable_get. */
    method Get(key: int) returns (data: Option<D>)
      requires entries.Length == totalEntries >= 1
      ensures data == Lookup(entries[..], hash, salt, key)
      ensures Valid() ==> data == if key in contents then Some(contents[key]) else None
    {
      hide Sound, KeyProbe;
      data := None;
      var index := FindKey(entries, hash, salt, key);
      if index != PLCTAG_ERR_NOT_FOUND {
        data := entries[index].data;
      }
      if Sound(entries[..], hash, salt, contents) {
        LookupIsTheMap(entries[..], hash, salt, contents, key);
      }
    }

    /**
     * hashtable_remove. For every key the slots go on holding the map without the key. The count stays
     * exact unless the key is 0 and a dead slot is among its probes: then it drops below the map's size.
     */
    method Remove(key: int) returns (data: Option<D>)
      requires Valid()
      modifies this`usedEntries, this`contents, entries
      ensures data == if key in old(contents) then Some(old(contents)[key]) else None
      ensures contents == old(contents) - {key} && Sound(entries[..], hash, salt, contents)
      ensures Valid() <==> !(key == 0 && HoleProbe(old(entries[..]), hash, salt, 0, 0) < MAX_ITERATIONS)
      ensures !Valid() ==> usedEntries == |contents| - 1
    {
      hide Sound, Holds;
      data := None;
      ghost var es := entries[..];
      NoZeroKey(es, hash, salt, contents);
      ProbeFacts(es, hash, salt, key, 0);
      if key != 0 {
        KeyLoopDecidesMembership(es, hash, salt, contents, key);
      } else {
        DeadKeyIsZero(es, hash, salt, contents);
      }
      var index := FindKey(entries, hash, salt, key);
      if index == PLCTAG_ERR_NOT_FOUND {
        assert contents - {key} == contents;
        return;
      }
      data := entries[index].data;
      EraseAt(index, key);
    }

    /** The lines of hashtable_remove that clear a slot. */
    method EraseAt(index: nat, key: int)
      requires Valid() && index < entries.Length && entries[index].key == key
      modifies this`usedEntries, this`contents, entries
      ensures contents == old(contents) - {key} && Sound(entries[..], hash, salt, contents)
      ensures usedEntries == old(usedEntries) - 1
      ensures key != 0 ==> usedEntries == |contents|
      ensures key == 0 ==> contents == old(contents)
    {
      hide Sound, Holds;
      NoZeroKey(entries[..], hash, salt, contents);
      LiveMeansNonzero(entries[..], hash, salt, contents);
      if key != 0 {
        SoundAfterErase(entries[..], hash, salt, contents, index);
        assert Live(entries[..][index]);
        MapShrinks(contents, key);
      } else {
        assert entries[..] == entries[..][index := Entry(0, None)];
        assert contents - {key} == contents;
      }
      entries[index] := Entry(0, None);
      usedEntries := usedEntries - 1;
      contents := contents - {key};
    }

    /**
     * expand_table. Its loop leaves only when the last find_empty succeeded, so an empty table is never
     * expanded: growth goes on until the allocation fails.
     */
    method ExpandTable(memory: Memory) returns (rc: int)
      requires Valid() && memory.limit == limit
      modifies this
      ensures Valid() && contents == old(contents)
      ensures rc == if Stuck(old(entries[..]), hash, salt, memory) then PLCTAG_ERR_NO_MEM else PLCTAG_STATUS_OK
      ensures rc == PLCTAG_ERR_NO_MEM ==> entries == old(entries) && totalEntries == old(totalEntries)
      ensures rc == PLCTAG_STATUS_OK ==>
                fresh(entries) && totalEntries > old(totalEntries) && contents != map[]
      ensures rc == PLCTAG_STATUS_OK ==>
                && Some(entries[..]) == Copied(old(entries[..]), old(totalEntries), hash, salt, totalEntries)
                && Tight(entries[..], hash, salt, contents)
      ensures rc == PLCTAG_STATUS_OK ==>
                exists n: nat :: totalEntries == Grown(old(totalEntries), n)
                                 && TriedBefore(old(entries[..]), hash, salt, memory, n)
    {
      hide Sound, Tight, Fits, Copied, LiveItems;
      var total := totalEntries;
      var index, used := PLCTAG_ERR_NOT_FOUND, 0;
      var newEntries := entries;
      ghost var es := entries[..];
      ghost var n: nat := 0;
      while index == PLCTAG_ERR_NOT_FOUND
        invariant unchanged(this) && entries[..] == es && total <= limit && total == Grown(|es|, n)
        invariant TriedBefore(es, hash, salt, memory, if index == PLCTAG_ERR_NOT_FOUND then n + 1 else n)
        invariant index != PLCTAG_ERR_NOT_FOUND ==>
            && fresh(newEntries) && n >= 1 && memory.Allocates(total) && Fits(es, hash, salt, total)
            && Expanded(newEntries, es, total) && used == |LiveItems(es, |es|)|
        decreases limit - total, if index == PLCTAG_ERR_NOT_FOUND then 1 else 0
      {
        total, n := total + (if total < MAX_INCREMENT then total else MAX_INCREMENT), n + 1;
        var a := MemAlloc(total, memory);
        if a == null {
          return PLCTAG_ERR_NO_MEM;
        }
        newEntries := a;
        ZeroedIsSound(newEntries[..], hash, salt);
        index, used := Rehash(entries, newEntries, hash, salt, contents);
      }
      LiveItemsAreTheMap(entries[..], hash, salt, contents);
      GrownIsLarger(totalEntries, n);
      NotStuck(es, hash, salt, memory, n);
      assert contents != map[] by { FitsHasEntries(es, hash, salt, contents, total); }
      entries, totalEntries, usedEntries := newEntries, total, used;
      rc := PLCTAG_STATUS_OK;
      assert totalEntries == Grown(old(totalEntries), n) && TriedBefore(old(entries[..]), hash, salt, memory, n);
    }

    /** What the copying leaves in the new slots. */
    ghost predicate Expanded(to: array<Entry<D>>, es: seq<Entry<D>>, total: nat)
      reads this, to
    {
      && to.Length == total >= 1 && Sound(to[..], hash, salt, contents) && Tight(to[..], hash, salt, contents)
      && Some(to[..]) == Copied(es, |es|, hash, salt, total)
    }

    /** The probe-and-expand loop of hashtable_put. */
    method MakeRoom(key: int, memory: Memory) returns (rc: int, index: int)
      requires Valid() && memory.limit == limit
      modifies this
      ensures Valid() && contents == old(contents) && (rc == PLCTAG_STATUS_OK || rc == PLCTAG_ERR_NO_MEM)
      ensures rc == PLCTAG_STATUS_OK ==>
        var p := HoleProbe(entries[..], hash, salt, key, 0);
        p < MAX_ITERATIONS && index == Slot(hash, salt, entries.Length, key, p)
      ensures rc == PLCTAG_ERR_NO_MEM ==>
        HoleProbe(entries[..], hash, salt, key, 0) >= MAX_ITERATIONS && Stuck(entries[..], hash, salt, memory)
      ensures HoleProbe(old(entries[..]), hash, salt, key, 0) < MAX_ITERATIONS ==>
                rc == PLCTAG_STATUS_OK && unchanged(this)
      ensures entries == old(entries) || (fresh(entries) && Tight(entries[..], hash, salt, contents))
    {
      hide Sound, Stuck, Tight;
      rc := PLCTAG_STATUS_OK;
      index := FindEmpty(entries, hash, salt, key);
      while index == PLCTAG_ERR_NOT_FOUND
        invariant Valid() && contents == old(contents) && rc == PLCTAG_STATUS_OK
        invariant var p := HoleProbe(entries[..], hash, salt, key, 0);
          index == if p < MAX_ITERATIONS then Slot(hash, salt, entries.Length, key, p) else PLCTAG_ERR_NOT_FOUND
        invariant unchanged(this) || HoleProbe(old(entries[..]), hash, salt, key, 0) >= MAX_ITERATIONS
        invariant entries == old(entries) || (fresh(entries) && Tight(entries[..], hash, salt, contents))
        decreases limit - totalEntries
      {
        rc := ExpandTable(memory);
        if rc != PLCTAG_STATUS_OK {
          return;
        }
        index := FindEmpty(entries, hash, salt, key);
      }
    }

    /**
     * hashtable_put, for any key. An absent nonzero key is added to the map. A key that is present, or 0, leaves a
     * table that is no longer sound: a get then finds the new data exactly when a hole came before the old entry,
     * other keys are found as before, and the count is one too high.
     */
    method Put(key: int, data: D, memory: Memory) returns (rc: int)
      requires Valid() && memory.limit == limit
      modifies this, entries
      ensures entries.Length == totalEntries >= 1 && (entries == old(entries) || fresh(entries))
      ensures rc == PLCTAG_STATUS_OK || rc == PLCTAG_ERR_NO_MEM
      ensures rc == PLCTAG_ERR_NO_MEM ==>
        && Valid() && contents == old(contents)
        && HoleProbe(entries[..], hash, salt, key, 0) >= MAX_ITERATIONS && Stuck(entries[..], hash, salt, memory)
      ensures rc == PLCTAG_STATUS_OK ==> (Valid() <==> key != 0 && key !in old(contents))
      ensures rc == PLCTAG_STATUS_OK ==>
        && contents == (if key != 0 && key !in old(contents) then old(contents)[key := data] else old(contents))
        && usedEntries == old(usedEntries) + 1
      ensures rc == PLCTAG_STATUS_OK ==>
        var hole, place := HoleProbe(old(entries[..]), hash, salt, key, 0), KeyProbe(old(entries[..]), hash, salt, key, 0);
        Lookup(entries[..], hash, salt, key)
        == if key in old(contents) && hole >= place then Some(old(contents)[key]) else Some(data)
      ensures rc == PLCTAG_STATUS_OK ==>
        forall k :: k != key && k != 0 ==>
          Lookup(entries[..], hash, salt, k) == if k in old(contents) then Some(old(contents)[k]) else None
      ensures HoleProbe(old(entries[..]), hash, salt, key, 0) < MAX_ITERATIONS ==>
                rc == PLCTAG_STATUS_OK && entries == old(entries)
      ensures |old(contents)| < 10 && |old(contents)| < old(totalEntries) ==>
                rc == PLCTAG_STATUS_OK && entries == old(entries)
    {
      hide Sound, HoleProbe, KeyProbe, Stuck, Tight, Lookup;
      if |contents| < 10 && |contents| < totalEntries {
        RoomBelowTen(entries[..], hash, salt, contents, key);
      }
      var index;
      ghost var es := entries[..];
      rc, index := MakeRoom(key, memory);
      if rc == PLCTAG_STATUS_OK {
        ghost var room := entries[..];
        StoreOutcome(es, room, hash, salt, contents, key, data);
        entries[index] := Entry(key, Some(data));
        usedEntries := usedEntries + 1;
        assert entries[..] == Stored(room, hash, salt, key, data);
        if key != 0 && key !in contents {
          MapGrows(contents, key, data);
          contents := contents[key := data];
        }
      }
    }

    /** hashtable_on_each: the pairs passed to the callback, in slot order, until it reports an error. */
    method OnEach(callback: (int, D) -> int) returns (rc: int, visited: seq<(int, D)>)
      requires Valid()
      ensures visited <= LiveItems(entries[..], totalEntries)
      ensures rc == PLCTAG_STATUS_OK ==> visited == LiveItems(entries[..], totalEntries)
      ensures forall i :: 0 <= i < |visited| ==>
                callback(visited[i].0, visited[i].1) == (if i == |visited| - 1 then rc else PLCTAG_STATUS_OK)
    {
      rc, visited := PLCTAG_STATUS_OK, [];
      var i := 0;
      while i < totalEntries && rc == PLCTAG_STATUS_OK
        invariant 0 <= i <= totalEntries && visited == LiveItems(entries[..], i)
        invariant forall j :: 0 <= j < |visited| ==>
                    callback(visited[j].0, visited[j].1) == (if j == |visited| - 1 then rc else PLCTAG_STATUS_OK)
      {
        if Live(entries[i]) {
          rc := callback(entries[i].key, entries[i].data.value);
          visited := visited + [(entries[i].key, entries[i].data.value)];
        }
        i := i + 1;
      }
      LiveItemsPrefix(entries[..], i, totalEntries);
    }
  }

  /** What storing into the first hole does to soundness and to all lookups. */
  lemma StoreOutcome<D>(es: seq<Entry<D>>, room: seq<Entry<D>>, hash: HashFn, salt: nat, m: map<int, D>, key: int, d: D)
    requires |es| >= 1 && |room| >= 1 && Sound(es, hash, salt, m) && Sound(room, hash, salt, m)
    requires HoleProbe(room, hash, salt, key, 0) < MAX_ITERATIONS
    requires room == es || (HoleProbe(es, hash, salt, key, 0) >= MAX_ITERATIONS && Tight(room, hash, salt, m))
    ensures var after := Stored(room, hash, salt, key, d);
      && (if key != 0 && key !in m then Sound(after, hash, salt, m[key := d]) else !Sound(after, hash, salt, m))
      && Lookup(after, hash, salt, key)
         == (if key in m && HoleProbe(es, hash, salt, key, 0) >= KeyProbe(es, hash, salt, key, 0)
             then Some(m[key]) else Some(d))
      && forall k :: k != key && k != 0 ==> Lookup(after, hash, salt, k) == if k in m then Some(m[k]) else None
  {
    hide Sound, HoleProbe, KeyProbe, Tight, Lookup, Stored;
    SoundAfterStoreIff(room, hash, salt, m, key, d);
    if key in m {
      PutOfPresentKey(es, room, hash, salt, m, key, d);
    } else {
      LookupOfStored(room, hash, salt, m, key, d);
    }
    forall k | k != key && k != 0
      ensures Lookup(Stored(room, hash, salt, key, d), hash, salt, k) == if k in m then Some(m[k]) else None
    {
      LookupOfOthers(room, hash, salt, m, key, d, k);
    }
  }

  /** hashtable_create: null for a size that is not positive, or without memory. */
  method Create<D>(initialCapacity: int, hash: HashFn, salt: nat, limit: nat, enoughMemory: bool)
      returns (table: HashTable?<D>)
    ensures table != null <==> 0 < initialCapacity <= limit && enoughMemory
    ensures table != null ==>
      && fresh(table) && fresh(table.entries) && table.Valid() && table.contents == map[]
      && table.totalEntries == initialCapacity
  {
    if initialCapacity <= 0 || initialCapacity > limit || !enoughMemory {
      return null;
    }
    table := new HashTable<D>(initialCapacity, hash, salt, limit);
  }

  lemma {:induction false} LiveItemsPrefix<D>(es: seq<Entry<D>>, i: nat, n: nat)
    requires i <= n <= |es|
    ensures LiveItems(es, i) <= LiveItems(es, n)
    decreases n
  {
    if i < n {
      LiveItemsPrefix(es, i, n - 1);
    }
  }

  lemma NoZeroKey<D>(es: seq<Entry<D>>, hash: HashFn, salt: nat, m: map<int, D>)
    requires Sound(es, hash, salt, m)
    ensures 0 !in m && !Holds(es, 0)
  {
  }

  lemma MapShrinks<D>(m: map<int, D>, key: int)
    requires key in m
    ensures |m - {key}| == |m| - 1
  {
    assert (m - {key}).Keys == m.Keys - {key};
  }

  lemma MapGrows<D>(m: map<int, D>, key: int, d: D)
    requires key !in m
    ensures |m[key := d]| == |m| + 1
  {
    assert m[key := d].Keys == m.Keys + {key};
  }

  /** In a sound table the slots with key 0 are the dead ones. */
  lemma {:induction false} DeadKeyIsZero<D>(es: seq<Entry<D>>, hash: HashFn, salt: nat, m: map<int, D>)
    requires Sound(es, hash, salt, m)
    ensures KeyProbe(es, hash, salt, 0, 0) == HoleProbe(es, hash, salt, 0, 0)
  {
    ProbeFacts(es, hash, salt, 0, 0);
    KeyProbeIsFirst(es, hash, salt, 0, 0, HoleProbe(es, hash, salt, 0, 0));
  }

  /** Removing key 0 from a fresh table: the count becomes -1. */
  method RemoveZeroFromFresh(hash: HashFn, salt: nat) returns (used: int)
    ensures used == -1
  {
    var table := new HashTable<int>(1, hash, salt, 1);
    assert !Live(table.entries[Slot(hash, salt, 1, 0, 0)]);
    var data := table.Remove(0);
    used := table.usedEntries;
  }
}
