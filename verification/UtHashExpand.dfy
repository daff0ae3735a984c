/** HASH_EXPAND_BUCKETS of uthash.h: every item is moved to an array of twice as many buckets. */
module UtHashExpand {
  import opened Bits
  import opened UtHashLinks

  /** HASH_TO_BKT. */
  function ToBkt(hashv: nat, numBuckets: nat): nat
    requires numBuckets >= 1
  {
    And(hashv, numBuckets - 1)
  }

  lemma ToBktInRange(hashv: nat, k: nat)
    ensures ToBkt(hashv, Pow2(k)) == hashv % Pow2(k) < Pow2(k)
  {
    MaskIsModulo(hashv, k);
  }

  /** `h` is in the chain of the bucket its hash selects. */
  ghost predicate AtHome(h: Handle, chains: seq<seq<Handle>>, hash: Key -> Uint32)
    requires |chains| >= 1
  {
    var b := ToBkt(hash(h.key), |chains|);
    b < |chains| && h in chains[b]
  }

  /** The chains hold exactly the handles of `members`, each in the bucket its hash selects. */
  ghost predicate Placed(members: set<Handle>, chains: seq<seq<Handle>>, hash: Key -> Uint32)
    requires |chains| >= 1
  {
    && (forall b, i :: 0 <= b < |chains| && 0 <= i < |chains[b]| ==>
        chains[b][i] in members && ToBkt(hash(chains[b][i].key), |chains|) == b)
    && (forall h {:trigger AtHome(h, chains, hash)} :: h in members ==> AtHome(h, chains, hash))
    && (forall b :: 0 <= b < |chains| ==> Distinct(chains[b]))
  }

  /** Bucket by bucket, the array holds the chains. */
  ghost predicate BucketsHold(buckets: seq<Bucket>, chains: seq<seq<Handle>>, members: set<Handle>)
    requires forall b, i :: 0 <= b < |chains| && 0 <= i < |chains[b]| ==> chains[b][i] in members
    reads members`hhPrev, members`hhNext
  {
    && |buckets| == |chains|
    && forall b :: 0 <= b < |chains| ==> BucketHolds(buckets[b], chains[b])
  }

  /** The buckets hold exactly `members`, linked, counted and each where its hash selects. */
  ghost predicate Holds(buckets: seq<Bucket>, chains: seq<seq<Handle>>, members: set<Handle>, hash: Key -> Uint32)
    reads members`hhPrev, members`hhNext
  {
    && |chains| >= 1
    && Placed(members, chains, hash)
    && BucketsHold(buckets, chains, members)
  }

  /** The sum over all chains of the items beyond the ideal length. */
  ghost function SumExcess(chains: seq<seq<Handle>>, ideal: nat): nat {
    if chains == [] then 0
    else
      var n := |chains| - 1;
      SumExcess(chains[..n], ideal) + if |chains[n]| > ideal then |chains[n]| - ideal else 0
  }

  lemma {:induction false} SumExcessAfterPush(chains: seq<seq<Handle>>, b: nat, h: Handle, ideal: nat)
    requires b < |chains|
    ensures SumExcess(chains[b := [h] + chains[b]], ideal)
         == SumExcess(chains, ideal) + (if |chains[b]| + 1 > ideal then 1 else 0)
  {
    var n := |chains| - 1;
    var after := chains[b := [h] + chains[b]];
    if b == n {
      assert after[..n] == chains[..n];
    } else {
      SumExcessAfterPush(chains[..n], b, h, ideal);
      assert after[..n] == chains[..n][b := [h] + chains[b]];
    }
  }

  lemma {:induction false} SumExcessOfEmpty(n: nat, ideal: nat)
    ensures SumExcess(seq(n, _ => []), ideal) == 0
  {
    if n > 0 {
      SumExcessOfEmpty(n - 1, ideal);
      assert seq(n, _ => [])[..n - 1] == seq<seq<Handle>>(n - 1, _ => []);
    }
  }

  lemma {:induction false} PairsOf(b: nat, lo: nat, hi: nat)
    ensures |set i: nat | lo <= i < hi :: (b, i)| == if lo <= hi then hi - lo else 0
    decreases hi
  {
    var pairs := set i: nat | lo <= i < hi :: (b, i);
    if hi > lo {
      PairsOf(b, lo, hi - 1);
      assert pairs == (set i: nat | lo <= i < hi - 1 :: (b, i)) + {(b, hi - 1)};
    } else {
      assert pairs == {};
    }
  }

  /** The places in the chains that lie beyond the ideal length. */
  ghost function Beyond(chains: seq<seq<Handle>>, ideal: nat): set<(nat, nat)> {
    set b: nat, i: nat | b < |chains| && ideal <= i < |chains[b]| :: (b, i)
  }

  lemma BeyondStep(chains: seq<seq<Handle>>, ideal: nat)
    requires chains != []
    ensures var n := |chains| - 1;
      |Beyond(chains, ideal)|
      == |Beyond(chains[..n], ideal)| + if |chains[n]| > ideal then |chains[n]| - ideal else 0
  {
    var n := |chains| - 1;
    var before, last := Beyond(chains[..n], ideal), set i: nat | ideal <= i < |chains[n]| :: (n, i);
    PairsOf(n, ideal, |chains[n]|);
    assert Beyond(chains, ideal) == before + last && before !! last;
  }

  /** The sum of the excesses is the number of places beyond the ideal length. */
  lemma {:induction false} SumExcessCounts(chains: seq<seq<Handle>>, ideal: nat)
    ensures SumExcess(chains, ideal) == |Beyond(chains, ideal)|
  {
    if chains == [] {
      assert Beyond(chains, ideal) == {};
    } else {
      SumExcessCounts(chains[..|chains| - 1], ideal);
      BeyondStep(chains, ideal);
    }
  }

  /** The expand_mult that an expansion leaves in a new bucket once `count` items were pushed. */
  function ExpandMult(count: nat, ideal: nat): (m: nat) {
    if count == 0 then 0
    else
      var m := ExpandMult(count - 1, ideal);
      if count > ideal && count > m * ideal then m + 1 else m
  }

  /** Bounds on a multiplier m, whose product with ideal is p: they leave only one value. */
  predicate WithinBounds(m: nat, p: int, count: nat, ideal: nat) {
    if count <= ideal then m == 0
    else 1 <= m <= count - ideal && p < count + ideal && (m == count - ideal || p >= count)
  }

  lemma NextProduct(m: nat, ideal: nat)
    ensures (m + 1) * ideal == m * ideal + ideal && 0 * ideal == 0
  {
  }

  /** Once a chain is longer than ideal, every further item raises the multiplier while it falls short. */
  lemma {:induction false} ExpandMultBounds(count: nat, ideal: nat)
    requires ideal >= 1
    ensures WithinBounds(ExpandMult(count, ideal), ExpandMult(count, ideal) * ideal, count, ideal)
  {
    if count > 0 {
      ExpandMultBounds(count - 1, ideal);
      var m := ExpandMult(count - 1, ideal);
      var p := m * ideal;
      NextProduct(m, ideal);
      BoundsStep(m, p, count, ideal);
    }
  }

  lemma BoundsStep(m: nat, p: int, count: nat, ideal: nat)
    requires count >= 1 && ideal >= 1 && WithinBounds(m, p, count - 1, ideal) && (m == 0 ==> p == 0)
    ensures if count > ideal && count > p then WithinBounds(m + 1, p + ideal, count, ideal)
            else WithinBounds(m, p, count, ideal)
  {
  }

  /** The multiplier in closed form: how many ideal chains the items would fill, but at most one per excess item. */
  lemma ExpandMultClosed(count: nat, ideal: nat)
    requires ideal >= 1
    ensures ExpandMult(count, ideal)
         == if count <= ideal then 0 else Min(count - ideal, (count + ideal - 1) / ideal)
  {
    hide ExpandMult;
    ExpandMultBounds(count, ideal);
    var m := ExpandMult(count, ideal);
    if count > ideal {
      var p := m * ideal;
      AtMostCeiling(m, p, count, ideal);
      if p >= count {
        AtLeastCeiling(m, p, count, ideal);
      }
    }
  }

  lemma AtMostCeiling(m: nat, p: int, n: nat, d: nat)
    requires d >= 1 && p == m * d < n + d
    ensures m <= (n + d - 1) / d
  {
    hide *;
    var q := (n + d - 1) / d;
    DivMod(n + d - 1, d);
    if m > q {
      MultipleGap(d, m, q);
    }
  }

  lemma AtLeastCeiling(m: nat, p: int, n: nat, d: nat)
    requires d >= 1 && p == m * d >= n
    ensures m >= (n + d - 1) / d
  {
    hide *;
    var q := (n + d - 1) / d;
    DivMod(n + d - 1, d);
    if q > m {
      MultipleGap(d, q, m);
    }
  }

  function Min(x: int, y: int): int {
    if x <= y then x else y
  }

  /** The expand_mult of a bucket is the one that an expansion to chains of this ideal length gives it. */
  ghost predicate Multiplied(b: Bucket, ideal: nat) {
    ideal >= 1 ==>
      b.expandMult == if b.count <= ideal then 0 else Min(b.count - ideal, (b.count + ideal - 1) / ideal)
  }

  /** The state of an expansion that has moved exactly the handles of `done`. */
  ghost predicate Moved(buckets: seq<Bucket>, chains: seq<seq<Handle>>, done: set<Handle>,
                        hash: Key -> Uint32, ideal: nat, nonideal: nat)
    reads done`hhPrev, done`hhNext
  {
    && Holds(buckets, chains, done, hash)
    && (forall b :: 0 <= b < |chains| ==> buckets[b].expandMult == ExpandMult(|chains[b]|, ideal))
    && nonideal == SumExcess(chains, ideal)
  }

  lemma PlacedAfterPush(chains: seq<seq<Handle>>, done: set<Handle>, h: Handle, hash: Key -> Uint32)
    requires |chains| >= 1 && Placed(done, chains, hash) && h !in done
    requires ToBkt(hash(h.key), |chains|) < |chains|
    ensures var b := ToBkt(hash(h.key), |chains|);
      Placed(done + {h}, chains[b := [h] + chains[b]], hash)
  {
    var b := ToBkt(hash(h.key), |chains|);
    var after := chains[b := [h] + chains[b]];
    assert h == after[b][0];
    forall o | o in done
      ensures AtHome(o, after, hash)
    {
      assert AtHome(o, chains, hash);
      var x := ToBkt(hash(o.key), |chains|);
      var i :| 0 <= i < |chains[x]| && chains[x][i] == o;
      assert after[x][if x == b then i + 1 else i] == o;
    }
  }

  /** The counting part of one move: the bucket's count and expand_mult, the table's nonideal_items. */
  method CountItem(bucket: Bucket, ideal: nat, nonideal: nat) returns (bucket': Bucket, nonideal': nat)
    requires bucket.expandMult == ExpandMult(bucket.count, ideal)
    ensures bucket'.head == bucket.head && bucket'.count == bucket.count + 1
    ensures bucket'.expandMult == ExpandMult(bucket'.count, ideal)
    ensures Multiplied(bucket', ideal)
    ensures nonideal' == nonideal + (if bucket'.count > ideal then 1 else 0)
  {
    if ideal >= 1 {
      ExpandMultClosed(bucket.count + 1, ideal);
    }
    bucket', nonideal' := bucket.(count := bucket.count + 1), nonideal;
    if bucket'.count > ideal {
      nonideal' := nonideal' + 1;
      if bucket'.count > bucket'.expandMult * ideal {
        bucket' := bucket'.(expandMult := bucket'.expandMult + 1);
      }
    }
  }

  /** Store a bucket whose chain gets `h` in front; every other chain is left alone. */
  method StoreAtFront(buckets: array<Bucket>, b: nat, bucket: Bucket, h: Handle,
                      ghost hash: Key -> Uint32, ghost chains: seq<seq<Handle>>, ghost done: set<Handle>)
    requires Holds(buckets[..], chains, done, hash)
    requires h !in done && b < |chains|
    requires bucket.head == buckets[b].head && bucket.count == buckets[b].count + 1
    modifies buckets, h`hhPrev, h`hhNext, done`hhPrev
    ensures buckets[..] == old(buckets[..])[b := bucket.(head := h)]
    ensures forall x :: 0 <= x < |chains| && x != b ==> BucketHolds(buckets[x], chains[x])
    ensures BucketHolds(buckets[b], [h] + chains[b])
  {
    assert BucketHolds(buckets[b], chains[b]);
    assert forall x :: 0 <= x < |chains| ==> BucketHolds(buckets[x], chains[x]);
    PushFront(bucket.head, h, chains[b]);
    buckets[b] := bucket.(head := h);
  }

  /** Move one item to its new bucket. */
  method MoveItem(buckets: array<Bucket>, h: Handle, ideal: nat, nonideal: nat,
                  ghost hash: Key -> Uint32, ghost chains: seq<seq<Handle>>, ghost done: set<Handle>)
    returns (nonideal': nat, ghost chains': seq<seq<Handle>>)
    requires Moved(buckets[..], chains, done, hash, ideal, nonideal)
    requires h !in done && h.hashv == hash(h.key)
    requires ToBkt(h.hashv, |chains|) < |chains|
    modifies buckets, h`hhPrev, h`hhNext, done`hhPrev
    ensures |chains'| == |chains|
    ensures Moved(buckets[..], chains', done + {h}, hash, ideal, nonideal')
  {
    var b := ToBkt(h.hashv, buckets.Length);
    assert BucketHolds(buckets[b], chains[b]);
    var bucket;
    bucket, nonideal' := CountItem(buckets[b], ideal, nonideal);
    StoreAtFront(buckets, b, bucket, h, hash, chains, done);
    chains' := chains[b := [h] + chains[b]];
    SumExcessAfterPush(chains, b, h, ideal);
    PlacedAfterPush(chains, done, h, hash);
  }

  /** A chain that can still be walked from position k on. */
  ghost predicate Walkable(c: seq<Handle>, k: nat)
    reads c`hhNext
  {
    forall i {:trigger c[i].hhNext} :: k <= i < |c| ==> c[i].hhNext == At(c, i + 1)
  }

  ghost function ElemsUpTo(c: seq<Handle>, k: nat): set<Handle>
    requires k <= |c|
  {
    set i | 0 <= i < k :: c[i]
  }

  lemma ElemsUpToStep(c: seq<Handle>, k: nat)
    requires k < |c| && Distinct(c)
    ensures c[k] !in ElemsUpTo(c, k)
    ensures ElemsUpTo(c, k + 1) == ElemsUpTo(c, k) + {c[k]}
  {
  }

  lemma ElemsUpToIn(c: seq<Handle>, k: nat)
    requires k <= |c|
    ensures forall h :: h in ElemsUpTo(c, k) ==> h in c
  {
  }

  lemma ElemsUpToNone(c: seq<Handle>, done: set<Handle>)
    ensures done + ElemsUpTo(c, 0) == done
  {
  }

  /** The inner loop: move every item of one old chain, following hh_next saved before each move. */
  method MoveChain(buckets: array<Bucket>, head: Handle?, ideal: nat, nonideal: nat, ghost c: seq<Handle>,
                   ghost hash: Key -> Uint32, ghost chains: seq<seq<Handle>>, ghost done: set<Handle>)
    returns (nonideal': nat, ghost chains': seq<seq<Handle>>)
    requires Moved(buckets[..], chains, done, hash, ideal, nonideal)
    requires head == At(c, 0) && Walkable(c, 0) && Distinct(c)
    requires forall i :: 0 <= i < |c| ==> c[i] !in done && c[i].hashv == hash(c[i].key)
    requires forall i :: 0 <= i < |c| ==> ToBkt(c[i].hashv, |chains|) < |chains|
    modifies buckets, c`hhPrev, c`hhNext, done`hhPrev
    ensures |chains'| == |chains|
    ensures Moved(buckets[..], chains', done + ElemsUpTo(c, |c|), hash, ideal, nonideal')
  {
    hide Moved, ElemsUpTo, ToBkt;
    nonideal', chains' := nonideal, chains;
    var thh := head;
    ghost var k := 0;
    ElemsUpToNone(c, done);
    while thh != null
      invariant k <= |c| && thh == At(c, k)
      invariant Walkable(c, k) && |chains'| == |chains|
      invariant Moved(buckets[..], chains', done + ElemsUpTo(c, k), hash, ideal, nonideal')
      decreases |c| - k
    {
      var nxt := thh.hhNext;
      ElemsUpToStep(c, k);
      ElemsUpToIn(c, k);
      ghost var moved := done + ElemsUpTo(c, k);
      assert moved + {thh} == done + ElemsUpTo(c, k + 1);
      nonideal', chains' := MoveItem(buckets, thh, ideal, nonideal', hash, chains', moved);
      thh, k := nxt, k + 1;
    }
  }

  /** The members whose old bucket is among the first i. */
  ghost function InFirst(members: set<Handle>, i: nat, n: nat, hash: Key -> Uint32): set<Handle>
    requires n >= 1
  {
    set h | h in members && ToBkt(hash(h.key), n) < i
  }

  lemma InFirstStep(members: set<Handle>, chains: seq<seq<Handle>>, i: nat, hash: Key -> Uint32)
    requires i < |chains| && Placed(members, chains, hash)
    ensures InFirst(members, i + 1, |chains|, hash)
         == InFirst(members, i, |chains|, hash) + ElemsUpTo(chains[i], |chains[i]|)
  {
    var n := |chains|;
    forall h | h in InFirst(members, i + 1, n, hash) && h !in InFirst(members, i, n, hash)
      ensures h in ElemsUpTo(chains[i], |chains[i]|)
    {
      assert AtHome(h, chains, hash);
    }
  }

  /** One round of the outer loop: old chain i is moved, the later old chains stay as they are. */
  method MoveBucket(old_: array<Bucket>, buckets: array<Bucket>, i: nat, ideal: nat, nonideal: nat,
                    ghost chains: seq<seq<Handle>>, ghost members: set<Handle>, ghost hash: Key -> Uint32,
                    ghost moved: seq<seq<Handle>>)
    returns (nonideal': nat, ghost moved': seq<seq<Handle>>)
    requires old_ != buckets && i < old_.Length == |chains| && Placed(members, chains, hash)
    requires |moved| >= 1
    requires forall h :: h in members ==> h.hashv == hash(h.key) && ToBkt(h.hashv, |moved|) < |moved|
    requires Moved(buckets[..], moved, InFirst(members, i, |chains|, hash), hash, ideal, nonideal)
    requires forall b :: i <= b < |chains| ==> BucketHolds(old_[b], chains[b])
    modifies buckets, members`hhPrev, members`hhNext
    ensures |moved'| == |moved|
    ensures Moved(buckets[..], moved', InFirst(members, i + 1, |chains|, hash), hash, ideal, nonideal')
    ensures forall b :: i < b < |chains| ==> BucketHolds(old_[b], chains[b])
  {
    ghost var done := InFirst(members, i, |chains|, hash);
    assert BucketHolds(old_[i], chains[i]);
    nonideal', moved' := MoveChain(buckets, old_[i].head, ideal, nonideal, chains[i], hash, moved, done);
    InFirstStep(members, chains, i, hash);
  }

  /** The two nested loops of HASH_EXPAND_BUCKETS over freshly zeroed buckets. */
  method Redistribute(old_: array<Bucket>, ideal: nat, ghost log2: nat, ghost chains: seq<seq<Handle>>,
                      ghost members: set<Handle>, ghost hash: Key -> Uint32)
    returns (buckets: array<Bucket>, nonideal: nat, ghost chains': seq<seq<Handle>>)
    requires old_.Length == |chains| == Pow2(log2)
    requires Holds(old_[..], chains, members, hash)
    requires forall h :: h in members ==> h.hashv == hash(h.key)
    modifies members`hhPrev, members`hhNext
    ensures fresh(buckets) && buckets.Length == |chains'| == 2 * old_.Length
    ensures Moved(buckets[..], chains', members, hash, ideal, nonideal)
  {
    var n := old_.Length;
    forall h | h in members
      ensures ToBkt(h.hashv, 2 * n) < 2 * n
    {
      ToBktInRange(h.hashv, log2 + 1);
    }
    assert forall b :: 0 <= b < n ==> BucketHolds(old_[b], chains[b]);
    buckets, nonideal, chains' := NewBuckets(2 * n, ideal, hash);
    assert InFirst(members, 0, n, hash) == {};
    var i := 0;
    while i < n
      invariant 0 <= i <= n && |chains'| == buckets.Length == 2 * n
      invariant Moved(buckets[..], chains', InFirst(members, i, n, hash), hash, ideal, nonideal)
      invariant forall b :: i <= b < n ==> BucketHolds(old_[b], chains[b])
    {
      nonideal, chains' := MoveBucket(old_, buckets, i, ideal, nonideal, chains, members, hash, chains');
      i := i + 1;
    }
    forall h | h in members
      ensures ToBkt(h.hashv, n) < n
    {
      ToBktInRange(h.hashv, log2);
    }
    assert InFirst(members, n, n, hash) == members;
  }

  /** Fresh zeroed buckets hold nothing. */
  method NewBuckets(n: nat, ideal: nat, ghost hash: Key -> Uint32)
    returns (buckets: array<Bucket>, nonideal: nat, ghost chains: seq<seq<Handle>>)
    requires n >= 1
    ensures fresh(buckets) && buckets.Length == |chains| == n
    ensures Moved(buckets[..], chains, {}, hash, ideal, nonideal)
    ensures nonideal == 0
  {
    buckets := new Bucket[n](_ => Bucket(null, 0, 0));
    nonideal, chains := 0, seq(n, _ => []);
    SumExcessOfEmpty(n, ideal);
  }

  lemma PlacedAfterDelete(chains: seq<seq<Handle>>, members: set<Handle>, b: nat, k: nat, hash: Key -> Uint32)
    requires b < |chains| && k < |chains[b]| && Placed(members, chains, hash)
    ensures Placed(members - {chains[b][k]}, chains[b := Without(chains[b], k)], hash)
  {
    var del := chains[b][k];
    var after := chains[b := Without(chains[b], k)];
    WithoutKeepsDistinct(chains[b], k);
    forall x, i | 0 <= x < |after| && 0 <= i < |after[x]|
      ensures after[x][i] in members - {del} && ToBkt(hash(after[x][i].key), |after|) == x
    {
      if x == b {
        assert after[x][i] == chains[b][if i < k then i else i + 1];
        assert after[x][i] in Without(chains[b], k);
      } else {
        assert after[x][i] == chains[x][i];
        assert ToBkt(hash(del.key), |chains|) == b;
      }
    }
    forall o | o in members - {del}
      ensures AtHome(o, after, hash)
    {
      assert AtHome(o, chains, hash);
    }
  }

  /** A member's position in the chain of its bucket. */
  lemma PlaceOf(h: Handle, chains: seq<seq<Handle>>, members: set<Handle>, hash: Key -> Uint32) returns (k: nat)
    requires |chains| >= 1 && Placed(members, chains, hash) && h in members
    ensures var b := ToBkt(hash(h.key), |chains|);
      b < |chains| && k < |chains[b]| && chains[b][k] == h
  {
    assert AtHome(h, chains, hash);
    var b := ToBkt(hash(h.key), |chains|);
    k :| 0 <= k < |chains[b]| && chains[b][k] == h;
  }
}
