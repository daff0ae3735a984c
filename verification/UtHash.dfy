/** uthash.h as its users see it: a head pointer, to which items are added, found, deleted and sorted. */
module UtHash {
  import opened UtHashLinks
  import opened UtHashExpand
  import opened UtHashTable
  import opened UtHashSort
  import opened StableMerge

  ghost predicate UniqueKeys(s: seq<Handle>) {
    forall i, j :: 0 <= i < j < |s| ==> s[i].key != s[j].key
  }

  lemma UniqueKeysAppend(s: seq<Handle>, add: Handle)
    requires UniqueKeys(s) && forall h :: h in s ==> h.key != add.key
    ensures UniqueKeys(s + [add]) && SetOf(s + [add]) == SetOf(s) + {add}
  {
  }

  lemma UniqueKeysWithout(s: seq<Handle>, k: nat)
    requires k < |s| && UniqueKeys(s) && Distinct(s)
    ensures UniqueKeys(Without(s, k)) && SetOf(Without(s, k)) == SetOf(s) - {s[k]}
  {
    WithoutKeepsDistinct(s, k);
  }

  class HashTable {
    /** HASH_FUNCTION. */
    const hash: Key -> Uint32
    /** Whether HASH_BLOOM is defined, and its value. */
    const useBloom: bool
    const bloomNbits: nat

    var head: Handle?
    var tbl: Table?

    /** The items in application order. */
    ghost var items: seq<Handle>

    ghost predicate ListOk()
      reads `head, `items, items`prev, items`next
    {
      head == At(items, 0) && Distinct(items) && AppLinked(items) && UniqueKeys(items)
    }

    ghost predicate Valid()
      reads this, tbl, items, if tbl == null then {} else {tbl.buckets as object, tbl.bloomBv}
    {
      && ListOk()
      && (items == [] <==> tbl == null)
      && (tbl != null ==>
        && tbl.hash == hash && tbl.useBloom == useBloom && tbl.bloomNbits == bloomNbits
        && tbl.tail == items[|items| - 1]
        && tbl.Ok(SetOf(items)))
    }

    constructor (hash: Key -> Uint32, useBloom: bool, bloomNbits: nat)
      ensures Valid() && items == []
      ensures this.hash == hash && this.useBloom == useBloom && this.bloomNbits == bloomNbits
    {
      this.hash, this.useBloom, this.bloomNbits := hash, useBloom, bloomNbits;
      head, tbl, items := null, null, [];
    }

    /** HASH_ADD into an empty table. */
    method AddFirst(add: Handle)
      requires Valid() && items == [] && add.hashv == hash(add.key)
      modifies this, add`prev, add`next, add`hhPrev, add`hhNext
      ensures Valid() && items == [add] && fresh(tbl) && fresh(tbl.buckets) && fresh(tbl.bloomBv)
      ensures tbl.numBuckets == HASH_INITIAL_NUM_BUCKETS && tbl.expansions == []
      ensures forall x :: 0 <= x < tbl.buckets.Length ==> tbl.buckets[x].expandMult == 0
    {
      hide Table.Ok, Table.JustExpanded;
      add.next, add.prev := null, null;
      var t := new Table(add, hash, useBloom, bloomNbits);
      t.AddToTable(add, {});
      head, tbl, items := add, t, [add];
      assert SetOf(items) == {} + {add};
    }

    /** HASH_APPEND_LIST. */
    method AppendList(add: Handle)
      requires ListOk() && items != [] && tbl != null && tbl.tail == items[|items| - 1]
      requires add !in items && forall h :: h in items ==> h.key != add.key
      modifies `items, tbl`tail, add`prev, add`next, tbl.tail`next
      ensures ListOk() && items == old(items) + [add] && tbl.tail == add
    {
      UniqueKeysAppend(items, add);
      AppendLast(tbl.tail, add, items);
      items := items + [add];
      tbl.tail := add;
    }

    /** HASH_ADD into a table that has items: HASH_APPEND_LIST, then HASH_ADD_TO_TABLE. */
    method AddNext(add: Handle)
      requires Valid() && tbl != null && add.hashv == hash(add.key)
      requires add !in items && forall h :: h in items ==> h.key != add.key
      modifies `items, tbl, tbl.buckets, tbl.bloomBv, add`prev, add`next, add`hhPrev, add`hhNext,
               tbl.tail`next, SetOf(items)`hhPrev, SetOf(items)`hhNext
      ensures Valid() && items == old(items) + [add]
      ensures tbl.numBuckets == if old(tbl.Fills(add.hashv)) then 2 * old(tbl.numBuckets) else old(tbl.numBuckets)
      ensures (tbl.buckets == old(tbl.buckets) || fresh(tbl.buckets)) && tbl.bloomBv == old(tbl.bloomBv)
      ensures if old(tbl.Fills(add.hashv)) then tbl.JustExpanded(|SetOf(items)|)
              else tbl.buckets == old(tbl.buckets) && forall x :: 0 <= x < tbl.buckets.Length ==>
                     tbl.buckets[x].expandMult == old(tbl.buckets[x].expandMult)
      ensures tbl.expansions
           == old(tbl.expansions)
              + if old(tbl.Fills(add.hashv)) then [Expansion(|SetOf(items)|, tbl.nonidealItems)] else []
    {
      hide Table.Ok, Table.Fills, Table.JustExpanded, AppLinked, Distinct, UniqueKeys;
      ghost var members := SetOf(items);
      UniqueKeysAppend(items, add);
      AppendList(add);
      tbl.AddToTable(add, members);
    }

    /** HASH_ADD: `add` becomes the last item in application order. */
    method Add(add: Handle)
      requires Valid() && add !in items && forall h :: h in items ==> h.key != add.key
      modifies this, tbl, if tbl == null then {} else {tbl.buckets as object, tbl.bloomBv}, add, SetOf(items)
      ensures Valid() && items == old(items) + [add]
      ensures tbl.numBuckets ==
              if old(tbl) == null then 32
              else if old(tbl != null && tbl.Fills(hash(add.key))) then 2 * old(tbl.numBuckets) else old(tbl.numBuckets)
      ensures if old(tbl != null && tbl.Fills(hash(add.key))) then tbl.JustExpanded(|SetOf(items)|)
              else forall x :: 0 <= x < tbl.buckets.Length ==>
                     tbl.buckets[x].expandMult == if old(tbl) == null then 0 else old(tbl.buckets[x].expandMult)
      ensures tbl.expansions
           == (if old(tbl) == null then [] else old(tbl.expansions))
              + if old(tbl != null && tbl.Fills(hash(add.key)))
                then [Expansion(|SetOf(items)|, tbl.nonidealItems)] else []
      ensures fresh(tbl) || tbl == old(tbl)
      ensures fresh(tbl.buckets) || (old(tbl) != null && tbl.buckets == old(tbl.buckets))
      ensures fresh(tbl.bloomBv) || (old(tbl) != null && tbl.bloomBv == old(tbl.bloomBv))
    {
      hide Table.Ok, Table.JustExpanded, AppLinked, Distinct, UniqueKeys;
      add.hashv := hash(add.key);
      if head == null {
        AddFirst(add);
      } else {
        AddNext(add);
      }
    }

    /** HASH_FIND: the item with the key, exactly when there is one. */
    method Find(key: Key) returns (out: Handle?)
      requires Valid()
      ensures out != null ==> out in items && out.key == key
      ensures out == null ==> forall h :: h in items ==> h.key != key
    {
      out := null;
      if head != null {
        out := tbl.FindByHashValue(key, hash(key), SetOf(items));
      }
    }

    /** HASH_DELETE: the item leaves both lists; deleting the last one frees the table. */
    method Delete(del: Handle) returns (ghost k: nat)
      requires Valid() && del in items
      modifies this, tbl, tbl.buckets, SetOf(items)
      ensures k < |old(items)| && old(items)[k] == del
      ensures Valid() && items == Without(old(items), k)
      ensures tbl == null || (tbl == old(tbl) && tbl.buckets == old(tbl.buckets) && tbl.bloomBv == old(tbl.bloomBv))
      ensures tbl != null ==> tbl.expansions == old(tbl.expansions) && tbl.numBuckets == old(tbl.numBuckets)
      ensures tbl != null ==> forall x :: 0 <= x < tbl.buckets.Length ==>
                tbl.buckets[x].expandMult == old(tbl.buckets[x].expandMult)
    {
      hide Table.Ok, AppLinked, Distinct, UniqueKeys;
      k :| 0 <= k < |items| && items[k] == del;
      OnlyItem(items, k);
      if del.prev == null && del.next == null {
        EmptyList();
        head, tbl, items := null, null, [];
      } else {
        DeleteAmongOthers(del, k);
      }
    }

    method DeleteAmongOthers(del: Handle, ghost k: nat)
      requires Valid() && |items| > 1 && k < |items| && items[k] == del
      modifies this, tbl, tbl.buckets, SetOf(items)
      ensures Valid() && items == Without(old(items), k)
      ensures tbl == old(tbl) && tbl.buckets == old(tbl.buckets) && tbl.bloomBv == old(tbl.bloomBv)
      ensures tbl.expansions == old(tbl.expansions) && tbl.numBuckets == old(tbl.numBuckets)
      ensures forall x :: 0 <= x < tbl.buckets.Length ==>
                tbl.buckets[x].expandMult == old(tbl.buckets[x].expandMult)
    {
      hide Table.Ok, AppLinked, Distinct, UniqueKeys;
      UniqueKeysWithout(items, k);
      UnlinkItem(del, k);
      tbl.RemoveFromTable(del, old(SetOf(items)));
    }

    /** The application-order part of HASH_DELETE_HH. */
    method UnlinkItem(del: Handle, ghost k: nat)
      requires ListOk() && tbl != null && |items| > 1 && tbl.tail == items[|items| - 1]
      requires k < |items| && items[k] == del
      modifies `head, `items, tbl`tail, items`prev, items`next
      ensures items == Without(old(items), k) && ListOk() && tbl.tail == items[|items| - 1]
    {
      hide AppLinked, UniqueKeys;
      UniqueKeysWithout(items, k);
      var newTail;
      head, newTail := UnlinkApp(head, tbl.tail, del, items, k);
      tbl.tail := newTail;
      items := Without(items, k);
    }

    /** HASH_SORT: the application order becomes its stable sort; the bucket chains are untouched. */
    method Sort(cmp: Cmp<Handle>)
      requires Valid() && |items| < 0x1_0000_0000 && PreorderOn(cmp, items)
      modifies `head, `items, if tbl == null then {} else {tbl}, SetOf(items)`prev, SetOf(items)`next
      ensures Valid() && IsStableSortOf(items, old(items), cmp)
      ensures tbl == old(tbl)
      ensures tbl != null ==> tbl.buckets == old(tbl.buckets) && tbl.buckets[..] == old(tbl.buckets[..])
      ensures tbl != null ==> tbl.chains == old(tbl.chains) && tbl.bloomBv == old(tbl.bloomBv)
      ensures tbl != null ==> tbl.expansions == old(tbl.expansions) && tbl.numBuckets == old(tbl.numBuckets)
    {
      if head != null {
        SortItems(cmp);
      } else {
        EmptyIsSorted(items, cmp);
      }
    }

    method SortItems(cmp: Cmp<Handle>)
      requires Valid() && tbl != null && |items| < 0x1_0000_0000 && PreorderOn(cmp, items)
      modifies `head, `items, tbl`tail, SetOf(items)`prev, SetOf(items)`next
      ensures Valid() && IsStableSortOf(items, old(items), cmp)
    {
      hide Table.Ok, IsStableSortOf, PreorderOn, AppLinked, Distinct, UniqueKeys;
      var head', tail';
      ghost var sorted;
      head', tail', sorted := SortList(head, cmp, items);
      UniqueKeysOfSort(items, sorted);
      head, tbl.tail, items := head', tail', sorted;
    }
  }

  lemma EmptyList()
    ensures AppLinked([]) && Distinct([]) && UniqueKeys([])
  {
  }

  lemma OnlyItem(s: seq<Handle>, k: nat)
    requires k < |s| && AppLinked(s)
    ensures s[k].prev == null && s[k].next == null <==> |s| == 1
  {
  }

  lemma UniqueKeysOfSort(s: seq<Handle>, t: seq<Handle>)
    requires UniqueKeys(s) && Distinct(s) && Distinct(t) && SetOf(t) == SetOf(s)
    ensures UniqueKeys(t)
  {
    forall i, j | 0 <= i < j < |t|
      ensures t[i].key != t[j].key
    {
      assert t[i] in SetOf(t) && t[j] in SetOf(t);
    }
  }

  lemma EmptyIsSorted(s: seq<Handle>, cmp: Cmp<Handle>)
    requires s == []
    ensures IsStableSortOf(s, s, cmp)
  {
  }
}
