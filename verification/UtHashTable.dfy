/** UT_hash_table of uthash.h: adding, finding and deleting items, with bucket doubling. */
module UtHashTable {
  import opened Bits
  import opened UtHashLinks
  import opened UtHashExpand
  import opened UtHashBloom

  const HASH_INITIAL_NUM_BUCKETS: nat := 32
  const HASH_INITIAL_NUM_BUCKETS_LOG2: nat := 5
  const HASH_BKT_CAPACITY_THRESH: nat := 10

  /** One past expansion: how many items there were, and how many ended beyond the ideal length. */
  datatype Expansion = Expansion(items: nat, nonideal: nat) {
    predicate Ineffective() {
      nonideal > items / 2
    }
  }

  /** How many of the latest expansions, one after the other, were ineffective. */
  ghost function TrailingIneffective(log: seq<Expansion>): nat {
    if log == [] || !log[|log| - 1].Ineffective() then 0
    else 1 + TrailingIneffective(log[..|log| - 1])
  }

  /** Some two consecutive expansions were both ineffective. */
  ghost predicate TwoInARow(log: seq<Expansion>) {
    exists i {:trigger log[i]} :: 0 < i < |log| && log[i - 1].Ineffective() && log[i].Ineffective()
  }

  /** ineff_expands counts the latest run of ineffective expansions; noexpand is set by two in a row. */
  ghost predicate InhibitOk(ineffExpands: nat, noexpand: bool, log: seq<Expansion>) {
    && ineffExpands == TrailingIneffective(log)
    && (noexpand <==> TwoInARow(log))
  }

  lemma HistoryStep(log: seq<Expansion>, e: Expansion)
    ensures TrailingIneffective(log + [e]) == if e.Ineffective() then TrailingIneffective(log) + 1 else 0
    ensures TwoInARow(log + [e]) <==> TwoInARow(log) || TrailingIneffective(log + [e]) > 1
  {
    var after := log + [e];
    assert after[..|log|] == log;
    if TwoInARow(log) {
      var i :| 0 < i < |log| && log[i - 1].Ineffective() && log[i].Ineffective();
      assert after[i - 1].Ineffective() && after[i].Ineffective();
    }
    if TrailingIneffective(after) > 1 {
      assert after[|log| - 1].Ineffective() && after[|log|].Ineffective();
    }
    if TwoInARow(after) {
      var i :| 0 < i < |after| && after[i - 1].Ineffective() && after[i].Ineffective();
      if i < |log| {
        assert log[i - 1].Ineffective() && log[i].Ineffective();
      } else {
        assert log[i - 1].Ineffective() && e.Ineffective();
      }
    }
  }

  /** ideal_chain_maxlen for the doubled bucket count, by a shift and a mask. */
  method IdealChainMaxlen(numItems: nat, numBuckets: nat, log2: nat) returns (ideal: nat)
    requires numBuckets == Pow2(log2)
    ensures IsCeiling(ideal, numItems, 2 * numBuckets)
  {
    ideal := ShiftRight(numItems, log2 + 1) + (if And(numItems, numBuckets * 2 - 1) != 0 then 1 else 0);
    ShiftAndMaskIsCeiling(numItems, log2 + 1);
  }

  /** The closing lines of HASH_EXPAND_BUCKETS: count ineffective expansions, inhibit after two. */
  method CountIneffective(numItems: nat, nonidealItems: nat, ineffExpands: nat, noexpand: bool,
                          ghost log: seq<Expansion>) returns (ineffExpands': nat, noexpand': bool)
    requires InhibitOk(ineffExpands, noexpand, log)
    ensures InhibitOk(ineffExpands', noexpand', log + [Expansion(numItems, nonidealItems)])
    ensures ineffExpands' == if 2 * nonidealItems > numItems then ineffExpands + 1 else 0
    ensures noexpand' <==> noexpand || ineffExpands' >= 2
  {
    HistoryStep(log, Expansion(numItems, nonidealItems));
    assert ShiftRight(numItems, 1) == ShiftRight(numItems / 2, 0);
    ineffExpands' := if nonidealItems > ShiftRight(numItems, 1) then ineffExpands + 1 else 0;
    noexpand' := noexpand;
    if ineffExpands' > 1 {
      noexpand' := true;
    }
  }

  /** What an expansion that has moved everything leaves in its buckets and in nonideal_items. */
  lemma MultipliersOf(buckets: seq<Bucket>, chains: seq<seq<Handle>>, members: set<Handle>, hash: Key -> Uint32,
                      ideal: nat, nonideal: nat)
    requires Moved(buckets, chains, members, hash, ideal, nonideal)
    ensures Holds(buckets, chains, members, hash)
    ensures forall b :: 0 <= b < |buckets| ==> Multiplied(buckets[b], ideal)
    ensures nonideal == |Beyond(chains, ideal)|
  {
    SumExcessCounts(chains, ideal);
    forall b | ideal >= 1 && 0 <= b < |buckets|
      ensures Multiplied(buckets[b], ideal)
    {
      assert BucketHolds(buckets[b], chains[b]);
      ExpandMultClosed(|chains[b]|, ideal);
    }
  }

  /** What an expansion to ideal chains of fewer than ten items leaves is below the threshold. */
  lemma ExpandedIsBelow(b: Bucket, ideal: nat)
    requires 1 <= ideal < 10 && Multiplied(b, ideal)
    ensures b.count < 10 * (b.expandMult + 1)
  {
    var c := (b.count + ideal - 1) / ideal;
    if b.count > ideal && b.expandMult == c {
      CeilingOfQuotient(b.count, ideal, c);
    }
  }

  lemma RoundsUpToOne(n: nat, d: nat)
    requires n >= 1 && d >= 1
    ensures (n + d - 1) / d >= 1
  {
    DivModUnique(n + d - 1, d, (n + d - 1) / d, (n + d - 1) % d);
  }

  lemma CeilingOfQuotient(n: nat, d: nat, c: nat)
    requires 1 <= d < 10 && c == (n + d - 1) / d
    ensures n <= 10 * c
  {
    assert n <= c * d;
    assert c * d <= c * 10;
  }

  lemma InitialBuckets()
    ensures HASH_INITIAL_NUM_BUCKETS == Pow2(HASH_INITIAL_NUM_BUCKETS_LOG2)
  {
    assert Pow2(3) == 8;
  }

  /** UT_hash_table: the buckets, the counters and the optional Bloom filter of one table. */
  class Table {
    /** HASH_FUNCTION. */
    const hash: Key -> Uint32
    /** Whether HASH_BLOOM is defined, and its value. */
    const useBloom: bool
    const bloomNbits: nat

    var tail: Handle
    var buckets: array<Bucket>
    var numBuckets: nat
    var log2NumBuckets: nat
    var numItems: nat
    var idealChainMaxlen: nat
    var nonidealItems: nat
    var ineffExpands: nat
    var noexpand: bool
    var bloomBv: array<bv8>

    /** The chain of each bucket, and every expansion since the table was made. */
    ghost var chains: seq<seq<Handle>>
    ghost var expansions: seq<Expansion>

    /** The buckets hold exactly `members`, and all counters are exact. */
    ghost predicate TableOk(members: set<Handle>)
      reads `buckets, `numBuckets, `log2NumBuckets, `numItems, `ineffExpands, `noexpand, `chains, `expansions,
            buckets, members`hhPrev, members`hhNext
    {
      && numBuckets == Pow2(log2NumBuckets) == buckets.Length == |chains|
      && numItems == |members|
      && Holds(buckets[..], chains, members, hash)
      && InhibitOk(ineffExpands, noexpand, expansions)
    }

    /** The bit of every member is set, so the filter never hides one. */
    ghost predicate BloomOk(members: set<Handle>)
      reads `bloomBv, bloomBv
    {
      useBloom ==>
        && bloomBv.Length == ByteLen(bloomNbits)
        && forall h :: h in members ==> Marked(bloomBv[..], bloomNbits, hash(h.key))
    }

    ghost predicate HashesOk(members: set<Handle>)
      reads members`hashv
    {
      forall h :: h in members ==> h.hashv == hash(h.key)
    }

    /** The table holds exactly `members`. */
    ghost predicate Ok(members: set<Handle>)
      reads `buckets, `numBuckets, `log2NumBuckets, `numItems, `ineffExpands, `noexpand, `chains, `expansions,
            `idealChainMaxlen, `bloomBv, buckets, bloomBv, members`hhPrev, members`hhNext, members`hashv
    {
      && TableOk(members) && BloomOk(members) && HashesOk(members) && Bounded()
      && buckets as object != bloomBv
    }

    /** One more item with this hash value brings its bucket to the threshold for doubling. */
    ghost predicate Fills(hashv: nat)
      reads `buckets, `numBuckets, `noexpand, buckets
    {
      numBuckets >= 1 && !noexpand &&
      var b := ToBkt(hashv, numBuckets);
      b < buckets.Length && buckets[b].count + 1 >= (buckets[b].expandMult + 1) * HASH_BKT_CAPACITY_THRESH
    }

    /**
     * What an expansion of n items leaves: the ideal length is n over the number of buckets, rounded up; items beyond
     * it are counted, and a bucket that has some may grow to as many times the threshold as it holds ideal chains.
     */
    ghost predicate JustExpanded(n: nat)
      reads `buckets, `numBuckets, `idealChainMaxlen, `nonidealItems, `chains, buckets
    {
      && numBuckets >= 1
      && idealChainMaxlen == (n + numBuckets - 1) / numBuckets
      && (forall b :: 0 <= b < buckets.Length ==> Multiplied(buckets[b], idealChainMaxlen))
      && nonidealItems == |Beyond(chains, idealChainMaxlen)|
    }

    /**
     * The bound on chains: while expansion is allowed and the ideal length is below the threshold of ten, every chain
     * is shorter than ten times one more than its bucket's multiplier.
     */
    ghost predicate Bounded()
      reads `buckets, `noexpand, `idealChainMaxlen, buckets
    {
      !noexpand && idealChainMaxlen < 10 ==>
        forall b :: 0 <= b < buckets.Length ==> buckets[b].count < 10 * (buckets[b].expandMult + 1)
    }

    /** HASH_MAKE_TABLE: an empty table of 32 buckets. */
    constructor (first: Handle, hash: Key -> Uint32, useBloom: bool, bloomNbits: nat)
      ensures tail == first && this.hash == hash && this.useBloom == useBloom && this.bloomNbits == bloomNbits
      ensures Ok({}) && fresh(buckets) && fresh(bloomBv) && expansions == [] && numBuckets == HASH_INITIAL_NUM_BUCKETS
      ensures forall hashv :: !Fills(hashv)
      ensures forall b :: 0 <= b < buckets.Length ==> buckets[b].expandMult == 0
    {
      InitialBuckets();
      var newBuckets, nonideal;
      ghost var newChains;
      newBuckets, nonideal, newChains := NewBuckets(HASH_INITIAL_NUM_BUCKETS, 0, hash);
      var bv := MakeBloom(if useBloom then bloomNbits else 0);
      this.hash, this.useBloom, this.bloomNbits := hash, useBloom, bloomNbits;
      tail, bloomBv := first, bv;
      numItems, idealChainMaxlen, nonidealItems, ineffExpands, noexpand := 0, 0, 0, 0, false;
      numBuckets, log2NumBuckets := HASH_INITIAL_NUM_BUCKETS, HASH_INITIAL_NUM_BUCKETS_LOG2;
      buckets, chains, expansions := newBuckets, newChains, [];
    }

    /** HASH_EXPAND_BUCKETS. */
    method ExpandBuckets(ghost members: set<Handle>)
      requires TableOk(members) && HashesOk(members)
      modifies this, members`hhPrev, members`hhNext
      ensures TableOk(members) && fresh(buckets) && numBuckets == 2 * old(numBuckets)
      ensures JustExpanded(|members|)
      ensures expansions == old(expansions) + [Expansion(|members|, nonidealItems)]
      ensures tail == old(tail) && bloomBv == old(bloomBv)
    {
      hide Moved, Holds, InhibitOk, Beyond;
      var ideal := IdealChainMaxlen(numItems, numBuckets, log2NumBuckets);
      var newBuckets, nonideal;
      ghost var newChains;
      newBuckets, nonideal, newChains := Redistribute(buckets, ideal, log2NumBuckets, chains, members, hash);
      CeilingIsUnique(ideal, |members|, 2 * numBuckets);
      MultipliersOf(newBuckets[..], newChains, members, hash, ideal, nonideal);
      Install(newBuckets, ideal, nonideal, newChains, members);
    }

    /** The end of HASH_EXPAND_BUCKETS: the new buckets replace the old, and the outcome is counted. */
    method Install(newBuckets: array<Bucket>, ideal: nat, nonideal: nat,
                   ghost newChains: seq<seq<Handle>>, ghost members: set<Handle>)
      requires numBuckets == Pow2(log2NumBuckets) && numItems == |members|
      requires newBuckets.Length == |newChains| == 2 * numBuckets
      requires Holds(newBuckets[..], newChains, members, hash)
      requires InhibitOk(ineffExpands, noexpand, expansions)
      modifies this
      ensures buckets == newBuckets && chains == newChains && numBuckets == 2 * old(numBuckets)
      ensures idealChainMaxlen == ideal && nonidealItems == nonideal
      ensures expansions == old(expansions) + [Expansion(|members|, nonideal)]
      ensures TableOk(members) && tail == old(tail) && bloomBv == old(bloomBv)
    {
      hide Holds, InhibitOk;
      var ineff, inhibit := CountIneffective(numItems, nonideal, ineffExpands, noexpand, expansions);
      expansions := expansions + [Expansion(numItems, nonideal)];
      idealChainMaxlen, nonidealItems, ineffExpands, noexpand := ideal, nonideal, ineff, inhibit;
      buckets, numBuckets, log2NumBuckets := newBuckets, numBuckets * 2, log2NumBuckets + 1;
      chains := newChains;
    }

    /** HASH_BLOOM_ADD, where the table has a filter. */
    method AddToFilter(add: Handle, ghost members: set<Handle>)
      requires BloomOk(members) && add.hashv == hash(add.key)
      modifies bloomBv
      ensures BloomOk(members + {add})
    {
      if useBloom {
        BloomAdd(bloomBv, bloomNbits, add.hashv);
      }
    }

    /** The linking part of HASH_ADD_TO_TABLE and HASH_ADD_TO_BKT. Returns the bucket. */
    method PushIntoBucket(add: Handle, ghost members: set<Handle>) returns (b: nat)
      requires TableOk(members) && add !in members && add.hashv == hash(add.key)
      modifies `numItems, `chains, buckets, add`hhPrev, add`hhNext, members`hhPrev
      ensures TableOk(members + {add}) && b == ToBkt(add.hashv, numBuckets) < buckets.Length
      ensures chains == old(chains)[b := [add] + old(chains)[b]]
      ensures buckets[b].count == old(buckets[b].count) + 1
      ensures forall x :: 0 <= x < buckets.Length && x != b ==> buckets[x].count == old(buckets[x].count)
      ensures forall x :: 0 <= x < buckets.Length ==> buckets[x].expandMult == old(buckets[x].expandMult)
    {
      numItems := numItems + 1;
      ToBktInRange(add.hashv, log2NumBuckets);
      b := ToBkt(add.hashv, numBuckets);
      assert BucketHolds(buckets[b], chains[b]);
      var bucket := buckets[b].(count := buckets[b].count + 1);
      PlacedAfterPush(chains, members, add, hash);
      StoreAtFront(buckets, b, bucket, add, hash, chains, members);
      chains := chains[b := [add] + chains[b]];
    }

    /** The end of HASH_ADD_TO_BKT: the buckets double when a chain reaches its threshold. */
    method ExpandIfCrowded(b: nat, ghost members: set<Handle>)
      requires TableOk(members) && HashesOk(members) && b < buckets.Length
      requires members != {}
      requires !noexpand && idealChainMaxlen < 10 ==>
                 forall x :: 0 <= x < buckets.Length && x != b ==> buckets[x].count < 10 * (buckets[x].expandMult + 1)
      modifies this, members`hhPrev, members`hhNext
      ensures TableOk(members) && Bounded() && (buckets == old(buckets) || fresh(buckets))
      ensures tail == old(tail) && bloomBv == old(bloomBv)
      ensures var crowded := old(buckets[b].count >= (buckets[b].expandMult + 1) * HASH_BKT_CAPACITY_THRESH && !noexpand);
        && numBuckets == (if crowded then 2 * old(numBuckets) else old(numBuckets))
        && (if crowded then
              expansions == old(expansions) + [Expansion(|members|, nonidealItems)] && JustExpanded(|members|)
            else
              buckets == old(buckets) && buckets[..] == old(buckets[..]) && expansions == old(expansions))
    {
      if buckets[b].count >= (buckets[b].expandMult + 1) * HASH_BKT_CAPACITY_THRESH && !noexpand {
        ExpandBuckets(members);
        ExpandedIsBounded(|members|);
      }
    }

    lemma ExpandedIsBounded(n: nat)
      requires JustExpanded(n) && n >= 1
      ensures Bounded()
    {
      RoundsUpToOne(n, numBuckets);
      forall b | idealChainMaxlen < 10 && 0 <= b < buckets.Length
        ensures buckets[b].count < 10 * (buckets[b].expandMult + 1)
      {
        ExpandedIsBelow(buckets[b], idealChainMaxlen);
      }
    }

    lemma HashesGrow(members: set<Handle>, add: Handle)
      requires HashesOk(members) && add.hashv == hash(add.key)
      ensures HashesOk(members + {add})
    {
    }

    /** HASH_ADD_TO_BKT, with the item count of HASH_ADD_TO_TABLE. */
    method AddToBkt(add: Handle, ghost members: set<Handle>)
      requires Ok(members) && add !in members && add.hashv == hash(add.key)
      modifies this, buckets, add`hhPrev, add`hhNext, members`hhPrev, members`hhNext
      ensures TableOk(members + {add}) && BloomOk(members) && Bounded() && buckets as object != bloomBv
      ensures numBuckets == if old(Fills(add.hashv)) then 2 * old(numBuckets) else old(numBuckets)
      ensures if old(Fills(add.hashv)) then JustExpanded(|members| + 1)
              else buckets == old(buckets) && forall x :: 0 <= x < buckets.Length ==>
                     buckets[x].expandMult == old(buckets[x].expandMult)
      ensures old(Fills(add.hashv)) ==> expansions == old(expansions) + [Expansion(|members| + 1, nonidealItems)]
      ensures !old(Fills(add.hashv)) ==> expansions == old(expansions)
      ensures tail == old(tail) && bloomBv == old(bloomBv) && (buckets == old(buckets) || fresh(buckets))
    {
      hide TableOk, BloomOk, HashesOk, JustExpanded;
      HashesGrow(members, add);
      var b := PushIntoBucket(add, members);
      ExpandIfCrowded(b, members + {add});
    }

    /** HASH_ADD_TO_TABLE. */
    method AddToTable(add: Handle, ghost members: set<Handle>)
      requires Ok(members) && add !in members && add.hashv == hash(add.key)
      modifies this, buckets, bloomBv, add`hhPrev, add`hhNext, members`hhPrev, members`hhNext
      ensures Ok(members + {add})
      ensures numBuckets == if old(Fills(add.hashv)) then 2 * old(numBuckets) else old(numBuckets)
      ensures if old(Fills(add.hashv)) then JustExpanded(|members| + 1)
              else buckets == old(buckets) && forall x :: 0 <= x < buckets.Length ==>
                     buckets[x].expandMult == old(buckets[x].expandMult)
      ensures old(Fills(add.hashv)) ==> expansions == old(expansions) + [Expansion(|members| + 1, nonidealItems)]
      ensures !old(Fills(add.hashv)) ==> expansions == old(expansions)
      ensures tail == old(tail) && bloomBv == old(bloomBv) && (buckets == old(buckets) || fresh(buckets))
    {
      hide TableOk, BloomOk, HashesOk, Fills, JustExpanded, Bounded;
      ghost var now := members + {add};
      HashesGrow(members, add);
      AddToBkt(add, members);
      AddToFilter(add, members);
      assert TableOk(now);
    }

    /** The table part of HASH_DELETE_HH: HASH_DEL_IN_BKT and the item count. */
    method RemoveFromTable(del: Handle, ghost members: set<Handle>)
      requires Ok(members) && del in members
      modifies `numItems, `chains, buckets, members`hhPrev, members`hhNext
      ensures Ok(members - {del})
      ensures forall x :: 0 <= x < buckets.Length ==> buckets[x].expandMult == old(buckets[x].expandMult)
    {
      hide TableOk;
      RemoveFromBucket(del, members);
    }

    method RemoveFromBucket(del: Handle, ghost members: set<Handle>)
      requires TableOk(members) && del in members && del.hashv == hash(del.key)
      modifies `numItems, `chains, buckets, members`hhPrev, members`hhNext
      ensures TableOk(members - {del})
      ensures forall x :: 0 <= x < buckets.Length ==> buckets[x].expandMult == old(buckets[x].expandMult)
      ensures forall x :: 0 <= x < buckets.Length ==> buckets[x].count <= old(buckets[x].count)
    {
      hide InhibitOk, AtHome, ToBkt, Placed, Without;
      var b := ToBkt(del.hashv, numBuckets);
      ghost var k := PlaceOf(del, chains, members, hash);
      ghost var c := chains[b];
      PlacedAfterDelete(chains, members, b, k, hash);
      var bucket := UnlinkInBucket(b, del, k, members);
      buckets[b] := bucket;
      numItems := numItems - 1;
      chains := chains[b := Without(c, k)];
    }

    method UnlinkInBucket(b: nat, del: Handle, ghost k: nat, ghost members: set<Handle>) returns (bucket: Bucket)
      requires b < |chains| && Holds(buckets[..], chains, members, hash)
      requires k < |chains[b]| && chains[b][k] == del
      modifies members`hhPrev, members`hhNext
      ensures BucketHolds(bucket, Without(chains[b], k))
      ensures forall x {:trigger chains[x]} :: 0 <= x < |chains| && x != b ==> BucketHolds(buckets[x], chains[x])
      ensures bucket.expandMult == buckets[b].expandMult
      ensures bucket.count <= buckets[b].count
    {
      assert forall x :: 0 <= x < |chains| ==> BucketHolds(buckets[x], chains[x]);
      bucket := UnlinkChain(buckets[b], del, chains[b], k);
    }

    /** HASH_FIND_IN_BKT: walk the chain of the bucket the hash value selects. */
    method FindInBkt(key: Key, hashv: Uint32, ghost members: set<Handle>) returns (out: Handle?)
      requires TableOk(members) && HashesOk(members) && hashv == hash(key)
      ensures out != null ==> out in members && out.key == key
      ensures out == null ==> forall h :: h in members ==> h.key != key
    {
      ToBktInRange(hashv, log2NumBuckets);
      var b := ToBkt(hashv, numBuckets);
      ghost var c := chains[b];
      out := buckets[b].head;
      ghost var k := 0;
      assert BucketHolds(buckets[..][b], c);
      while out != null
        invariant k <= |c| && out == At(c, k)
        invariant forall i :: 0 <= i < k ==> c[i].key != key
        decreases |c| - k
      {
        if out.hashv == hashv && |out.key| == |key| {
          if out.key == key {
            return;
          }
        }
        out, k := out.hhNext, k + 1;
      }
      forall h | h in members
        ensures h.key != key
      {
        assert AtHome(h, chains, hash);
      }
    }

    /** HASH_FIND_BYHASHVALUE: the Bloom filter is asked first, where the table has one. */
    method FindByHashValue(key: Key, hashv: Uint32, ghost members: set<Handle>) returns (out: Handle?)
      requires Ok(members) && hashv == hash(key)
      ensures out != null ==> out in members && out.key == key
      ensures out == null ==> forall h :: h in members ==> h.key != key
    {
      out := null;
      var maybe := true;
      if useBloom {
        maybe := BloomTest(bloomBv, bloomNbits, hashv);
      }
      if maybe {
        out := FindInBkt(key, hashv, members);
      }
    }
  }
}
