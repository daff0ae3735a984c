/** HASH_FSCK of uthash.h, the integrity check that the library compiles in for its own developers. */
module UtHashFsck {
  import opened Bits
  import opened UtHashLinks
  import opened UtHashExpand
  import opened UtHashTable
  import opened UtHash

  ghost function SumLengths(chains: seq<seq<Handle>>, k: nat): nat
    requires k <= |chains|
  {
    if k == 0 then 0 else SumLengths(chains, k - 1) + |chains[k - 1]|
  }

  lemma {:induction false} ElemsUpToSize(c: seq<Handle>, k: nat)
    requires k <= |c| && Distinct(c)
    ensures |ElemsUpTo(c, k)| == k
  {
    if k > 0 {
      ElemsUpToSize(c, k - 1);
      ElemsUpToStep(c, k - 1);
    }
  }

  /** The chain lengths add up to the number of members, bucket by bucket. */
  lemma {:induction false} SumLengthsCounts(members: set<Handle>, chains: seq<seq<Handle>>, k: nat, hash: Key -> Uint32)
    requires |chains| >= 1 && k <= |chains| && Placed(members, chains, hash)
    ensures SumLengths(chains, k) == |InFirst(members, k, |chains|, hash)|
  {
    if k > 0 {
      var n, c := |chains|, chains[k - 1];
      SumLengthsCounts(members, chains, k - 1, hash);
      InFirstStep(members, chains, k - 1, hash);
      ElemsUpToSize(c, |c|);
      assert InFirst(members, k - 1, n, hash) !! ElemsUpTo(c, |c|);
    } else {
      assert InFirst(members, 0, |chains|, hash) == {};
    }
  }

  lemma AllChainsCount(members: set<Handle>, chains: seq<seq<Handle>>, log2: nat, hash: Key -> Uint32)
    requires |chains| == Pow2(log2) && Placed(members, chains, hash)
    ensures SumLengths(chains, |chains|) == |members|
  {
    SumLengthsCounts(members, chains, |chains|, hash);
    forall h | h in members
      ensures h in InFirst(members, |chains|, |chains|, hash)
    {
      ToBktInRange(hash(h.key), log2);
    }
    assert InFirst(members, |chains|, |chains|, hash) == members;
  }

  lemma ItemsCount(s: seq<Handle>)
    requires Distinct(s)
    ensures |SetOf(s)| == |s|
  {
    ElemsUpToSize(s, |s|);
    assert SetOf(s) == ElemsUpTo(s, |s|);
  }

  // ---- the check, on any table whose lists can be walked to their ends

  /** From its head on, a bucket's chain can be walked, whatever its other links and its count say. */
  ghost predicate Walks(b: Bucket, c: seq<Handle>)
    reads c`hhNext
  {
    b.head == At(c, 0) && Walkable(c, 0)
  }

  ghost predicate ListWalks(head: Handle?, s: seq<Handle>)
    reads s`next
  {
    head == At(s, 0) && forall i {:trigger s[i].next} :: 0 <= i < |s| ==> s[i].next == At(s, i + 1)
  }

  ghost predicate AllWalk(t: Table, chains: seq<seq<Handle>>)
    reads t, t.buckets, set b, i | 0 <= b < |chains| && 0 <= i < |chains[b]| :: chains[b][i]
  {
    t.numBuckets == |chains| <= t.buckets.Length && forall b :: 0 <= b < |chains| ==> Walks(t.buckets[b], chains[b])
  }

  /** The walk along one bucket chain: are all hh_prev right, and the count? */
  method CheckChain(b: Bucket, ghost c: seq<Handle>) returns (ok: bool, count: nat)
    requires Walks(b, c)
    ensures count == |c| && (ok <==> BucketHolds(b, c))
  {
    ok, count := true, 0;
    var thh, prev: Handle? := b.head, null;
    while thh != null
      invariant count <= |c| && thh == At(c, count) && prev == At(c, count - 1)
      invariant ok <==> forall i {:trigger c[i].hhPrev} :: 0 <= i < count ==> c[i].hhPrev == At(c, i - 1)
      decreases |c| - count
    {
      if prev != thh.hhPrev {
        ok := false;
      }
      count := count + 1;
      prev, thh := thh, thh.hhNext;
    }
    if b.count != count {
      ok := false;
    }
  }

  /** The buckets up to n hold their chains. */
  ghost predicate Hold(buckets: seq<Bucket>, chains: seq<seq<Handle>>, n: nat)
    requires n <= |chains| && n <= |buckets|
    reads set b, i | 0 <= b < |chains| && 0 <= i < |chains[b]| :: chains[b][i]
  {
    forall b :: 0 <= b < n ==> BucketHolds(buckets[b], chains[b])
  }

  method CheckBuckets(t: Table, ghost chains: seq<seq<Handle>>) returns (ok: bool)
    requires AllWalk(t, chains)
    ensures ok <==> Hold(t.buckets[..], chains, |chains|) && t.numItems == SumLengths(chains, |chains|)
  {
    hide BucketHolds, Walks;
    ok := true;
    var count, i := 0, 0;
    while i < t.numBuckets
      invariant 0 <= i <= t.numBuckets && count == SumLengths(chains, i)
      invariant ok <==> Hold(t.buckets[..], chains, i)
    {
      var good, n := CheckChain(t.buckets[i], chains[i]);
      ok := ok && good;
      count, i := count + n, i + 1;
    }
    if count != t.numItems {
      ok := false;
    }
  }

  /** The walk along the application order: are all prev right, and the number of items? */
  method CheckList(head: Handle?, numItems: nat, ghost s: seq<Handle>) returns (ok: bool)
    requires ListWalks(head, s)
    ensures ok <==> AppLinked(s) && numItems == |s|
  {
    ok := true;
    var count: nat := 0;
    var thh, prev: Handle? := head, null;
    while thh != null
      invariant count <= |s| && thh == At(s, count) && prev == At(s, count - 1)
      invariant ok <==> forall i {:trigger s[i].prev} :: 0 <= i < count ==> s[i].prev == At(s, i - 1)
      decreases |s| - count
    {
      count := count + 1;
      if prev != thh.prev {
        ok := false;
      }
      prev, thh := thh, thh.next;
    }
    if count != numItems {
      ok := false;
    }
  }

  /** HASH_FSCK: all is well exactly when the links back and the three counts fit the lists as they are walked. */
  method Fsck(head: Handle?, t: Table, ghost items: seq<Handle>, ghost chains: seq<seq<Handle>>) returns (ok: bool)
    requires ListWalks(head, items) && AllWalk(t, chains)
    ensures ok <==>
      head != null ==>
        && Hold(t.buckets[..], chains, |chains|) && AppLinked(items)
        && t.numItems == SumLengths(chains, |chains|) == |items|
  {
    hide Hold, AppLinked, Walks;
    ok := true;
    if head != null {
      var bucketsOk := CheckBuckets(t, chains);
      var listOk := CheckList(head, t.numItems, items);
      ok := bucketsOk && listOk;
    }
  }

  /** So it finds nothing wrong with any valid table. */
  method FsckOfValid(h: HashTable) returns (ok: bool)
    requires h.Valid()
    ensures ok
  {
    hide BucketHolds, Placed, InhibitOk;
    if h.head == null {
      return true;
    }
    var t := h.tbl;
    AllChainsCount(SetOf(h.items), t.chains, t.log2NumBuckets, t.hash);
    ItemsCount(h.items);
    forall b | 0 <= b < |t.chains|
      ensures Walks(t.buckets[b], t.chains[b]) && BucketHolds(t.buckets[..][b], t.chains[b])
    {
      assert BucketHolds(t.buckets[..][b], t.chains[b]);
      HoldingWalks(t.buckets[b], t.chains[b]);
    }
    ok := Fsck(h.head, t, h.items, t.chains);
  }

  lemma HoldingWalks(b: Bucket, c: seq<Handle>)
    requires BucketHolds(b, c)
    ensures Walks(b, c)
  {
  }
}
