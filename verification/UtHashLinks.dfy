/** The hash handles of uthash.h, and the two doubly linked lists that thread through them. */
module UtHashLinks {

  type Uint32 = x: nat | x < 0x1_0000_0000

  type Key = seq<bv8>

  /** A UT_hash_handle: one item of a table, with its application-order and bucket-chain links. */
  class Handle {
    const key: Key
    var hashv: Uint32
    var prev: Handle?
    var next: Handle?
    var hhPrev: Handle?
    var hhNext: Handle?

    constructor (key: Key)
      ensures this.key == key
    {
      this.key := key;
    }
  }

  /** A UT_hash_bucket, stored by value in the table's bucket array. */
  datatype Bucket = Bucket(head: Handle?, count: nat, expandMult: nat)

  /** The i-th handle of a list, or null where the list has none. */
  ghost function At(s: seq<Handle>, i: int): Handle? {
    if 0 <= i < |s| then s[i] else null
  }

  ghost function SetOf(s: seq<Handle>): set<Handle> {
    set h | h in s
  }

  ghost predicate Distinct(s: seq<Handle>) {
    forall i, j :: 0 <= i < j < |s| ==> s[i] != s[j]
  }

  /** `s` is exactly the application-order list of its elements: both links, both ends. */
  ghost predicate AppLinked(s: seq<Handle>)
    reads s`prev, s`next
  {
    && (forall i {:trigger s[i].prev} :: 0 <= i < |s| ==> s[i].prev == At(s, i - 1))
    && (forall i {:trigger s[i].next} :: 0 <= i < |s| ==> s[i].next == At(s, i + 1))
  }

  /** `s` is exactly a bucket chain: both links, both ends. */
  ghost predicate ChainLinked(s: seq<Handle>)
    reads s`hhPrev, s`hhNext
  {
    && (forall i {:trigger s[i].hhPrev} :: 0 <= i < |s| ==> s[i].hhPrev == At(s, i - 1))
    && (forall i {:trigger s[i].hhNext} :: 0 <= i < |s| ==> s[i].hhNext == At(s, i + 1))
  }

  /** Bucket `b` holds exactly the chain `c`, with an exact count. */
  ghost predicate BucketHolds(b: Bucket, c: seq<Handle>)
    reads c`hhPrev, c`hhNext
  {
    b.head == At(c, 0) && b.count == |c| && ChainLinked(c)
  }

  ghost function Without(s: seq<Handle>, k: nat): (t: seq<Handle>)
    requires k < |s|
    ensures |t| == |s| - 1
    ensures forall i :: 0 <= i < |t| ==> t[i] == s[if i < k then i else i + 1]
  {
    s[..k] + s[k + 1..]
  }

  lemma WithoutKeepsDistinct(s: seq<Handle>, k: nat)
    requires k < |s| && Distinct(s)
    ensures Distinct(Without(s, k)) && s[k] !in Without(s, k)
    ensures forall h :: h in Without(s, k) <==> h in s && h != s[k]
  {
    var t := Without(s, k);
    forall h | h in s && h != s[k]
      ensures h in t
    {
      var i :| 0 <= i < |s| && s[i] == h;
      assert t[if i < k then i else i - 1] == h;
    }
  }

  /** HASH_APPEND_LIST: `add` becomes the last item in application order. */
  method AppendLast(tail: Handle, add: Handle, ghost s: seq<Handle>)
    requires s != [] && tail == s[|s| - 1] && AppLinked(s) && Distinct(s) && add !in s
    modifies add`prev, add`next, tail`next
    ensures AppLinked(s + [add]) && Distinct(s + [add])
  {
    add.next := null;
    add.prev := tail;
    tail.next := add;
  }

  /** The application-order part of HASH_DELETE_HH for an item that is not the only one. */
  method UnlinkApp(head: Handle, tail: Handle, del: Handle, ghost s: seq<Handle>, ghost k: nat)
    returns (newHead: Handle, newTail: Handle)
    requires |s| > 1 && k < |s| && s[k] == del
    requires AppLinked(s) && Distinct(s) && head == s[0] && tail == s[|s| - 1]
    modifies s`prev, s`next
    ensures AppLinked(Without(s, k)) && Distinct(Without(s, k))
    ensures newHead == Without(s, k)[0] && newTail == Without(s, k)[|s| - 2]
  {
    newHead, newTail := head, tail;
    if del == tail {
      newTail := del.prev;
    }
    if del.prev != null {
      del.prev.next := del.next;
    } else {
      newHead := del.next;
    }
    if del.next != null {
      del.next.prev := del.prev;
    }
    assert forall i {:trigger s[i].next} :: 0 <= i < |s| && i != k ==> s[i].next == AtSkipping(s, k, i + 1, 1);
    assert forall i {:trigger s[i].prev} :: 0 <= i < |s| && i != k ==> s[i].prev == AtSkipping(s, k, i - 1, -1);
    RelinkedApp(s, k);
  }

  /** The neighbour at position i, or the one beyond it in direction d if i is the skipped position. */
  ghost function AtSkipping(s: seq<Handle>, k: nat, i: int, d: int): Handle? {
    At(s, if i == k then i + d else i)
  }

  lemma RelinkedApp(s: seq<Handle>, k: nat)
    requires k < |s| && Distinct(s)
    requires forall i {:trigger s[i].next} :: 0 <= i < |s| && i != k ==> s[i].next == AtSkipping(s, k, i + 1, 1)
    requires forall i {:trigger s[i].prev} :: 0 <= i < |s| && i != k ==> s[i].prev == AtSkipping(s, k, i - 1, -1)
    ensures AppLinked(Without(s, k)) && Distinct(Without(s, k))
  {
    WithoutKeepsDistinct(s, k);
    var t := Without(s, k);
    forall i | 0 <= i < |t|
      ensures t[i].prev == At(t, i - 1) && t[i].next == At(t, i + 1)
    {
      var j := if i < k then i else i + 1;
      assert t[i] == s[j];
      assert At(t, i + 1) == AtSkipping(s, k, j + 1, 1);
      assert At(t, i - 1) == AtSkipping(s, k, j - 1, -1);
    }
  }

  lemma RelinkedChain(c: seq<Handle>, k: nat)
    requires k < |c| && Distinct(c)
    requires forall i {:trigger c[i].hhNext} :: 0 <= i < |c| && i != k ==> c[i].hhNext == AtSkipping(c, k, i + 1, 1)
    requires forall i {:trigger c[i].hhPrev} :: 0 <= i < |c| && i != k ==> c[i].hhPrev == AtSkipping(c, k, i - 1, -1)
    ensures ChainLinked(Without(c, k)) && Distinct(Without(c, k))
  {
    WithoutKeepsDistinct(c, k);
    var t := Without(c, k);
    forall i | 0 <= i < |t|
      ensures t[i].hhPrev == At(t, i - 1) && t[i].hhNext == At(t, i + 1)
    {
      var j := if i < k then i else i + 1;
      assert t[i] == c[j];
      assert At(t, i + 1) == AtSkipping(c, k, j + 1, 1);
      assert At(t, i - 1) == AtSkipping(c, k, j - 1, -1);
    }
  }

  /** The linking common to HASH_ADD_TO_BKT and HASH_EXPAND_BUCKETS: push in front of a chain. */
  method PushFront(head: Handle?, add: Handle, ghost c: seq<Handle>)
    requires head == At(c, 0) && ChainLinked(c) && Distinct(c) && add !in c
    modifies add`hhPrev, add`hhNext, c`hhPrev
    ensures ChainLinked([add] + c) && Distinct([add] + c)
  {
    add.hhNext := head;
    add.hhPrev := null;
    if head != null {
      head.hhPrev := add;
    }
  }

  /** HASH_DEL_IN_BKT. */
  method UnlinkChain(b: Bucket, del: Handle, ghost c: seq<Handle>, ghost k: nat) returns (b': Bucket)
    requires k < |c| && c[k] == del && BucketHolds(b, c) && Distinct(c)
    modifies c`hhPrev, c`hhNext
    ensures BucketHolds(b', Without(c, k)) && Distinct(Without(c, k)) && b'.expandMult == b.expandMult
  {
    b' := b.(count := b.count - 1);
    if b'.head == del {
      b' := b'.(head := del.hhNext);
    }
    if del.hhPrev != null {
      del.hhPrev.hhNext := del.hhNext;
    }
    if del.hhNext != null {
      del.hhNext.hhPrev := del.hhPrev;
    }
    assert forall i {:trigger c[i].hhNext} :: 0 <= i < |c| && i != k ==> c[i].hhNext == AtSkipping(c, k, i + 1, 1);
    assert forall i {:trigger c[i].hhPrev} :: 0 <= i < |c| && i != k ==> c[i].hhPrev == AtSkipping(c, k, i - 1, -1);
    RelinkedChain(c, k);
  }
}
