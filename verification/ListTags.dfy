/**
 * list_tags() of list_tags.cpp from end to end: list the controller's tags, add those of its programs, and fetch
 * every UDT definition that the listed tags need.
 */
module ListTags {
  import opened PlcBytes
  import opened TagListing
  import opened UdtWorklist

  /** The UDTs that the types of the listed tags call for. */
  ghost function Roots(entries: seq<TagEntry>, n: nat): set<nat>
    requires n <= |entries|
    reads entries
  {
    if n == 0 then {} else Roots(entries, n - 1) + TypeRoots(entries[n - 1].elementType)
  }

  /** How many of the first n tags call for a UDT. */
  ghost function CountStructs(entries: seq<TagEntry>, n: nat): nat
    requires n <= |entries|
    reads entries
  {
    if n == 0 then 0
    else CountStructs(entries, n - 1) + if WantsUdt(entries[n - 1].elementType) then 1 else 0
  }

  /** In terms of the tags' types: bit 15 is set, bit 12 is not, and the lowest twelve bits are the id. */
  lemma {:induction false} RootsIff(entries: seq<TagEntry>, n: nat, id: nat)
    requires n <= |entries|
    ensures id in Roots(entries, n) <==>
            exists i :: 0 <= i < n && entries[i].elementType / 0x8000 % 2 == 1
                     && entries[i].elementType / 0x1000 % 2 == 0 && entries[i].elementType % 0x1000 == id
  {
    hide WantsUdt, UdtId;
    if n > 0 {
      RootsIff(entries, n - 1, id);
      WantsUdtIff(entries[n - 1].elementType);
    }
  }

  /** So of a listing that was decoded, they are the ids in the symbol types of its records. */
  lemma RootsOfRecords(entries: seq<TagEntry>, rs: seq<Record>, parent: TagEntry?, id: nat)
    requires ShowReversed(entries, rs, parent)
    ensures id in Roots(entries, |entries|) <==>
            exists i :: 0 <= i < |rs| && rs[i].symbolType / 0x8000 % 2 == 1 && rs[i].symbolType / 0x1000 % 2 == 0
                     && rs[i].symbolType % 0x1000 == id
  {
    RootsIff(entries, |entries|, id);
    hide Roots;
    var n := |rs|;
    forall i | 0 <= i < n
      ensures entries[i].elementType == rs[n - 1 - i].symbolType
    {
      assert Shows(entries[i], rs[n - 1 - i], parent);
    }
    if i :| 0 <= i < n && rs[i].symbolType / 0x8000 % 2 == 1 && rs[i].symbolType / 0x1000 % 2 == 0
            && rs[i].symbolType % 0x1000 == id {
      assert entries[n - 1 - i].elementType == rs[i].symbolType;
    }
  }

  /** The tags of the first n whose types call for a UDT. */
  ghost function Structs(entries: seq<TagEntry>, n: nat): set<nat>
    requires n <= |entries|
    reads entries
  {
    set i: nat | i < n && entries[i].elementType / 0x8000 % 2 == 1 && entries[i].elementType / 0x1000 % 2 == 0
  }

  lemma StructsStep(entries: seq<TagEntry>, n: nat)
    requires n < |entries|
    ensures Structs(entries, n + 1) == Structs(entries, n) + (if WantsUdt(entries[n].elementType) then {n} else {})
    ensures n !in Structs(entries, n)
  {
    hide WantsUdt, UdtId;
    WantsUdtIff(entries[n].elementType);
  }

  lemma {:induction false} CountStructsIsCount(entries: seq<TagEntry>, n: nat)
    requires n <= |entries|
    ensures CountStructs(entries, n) == |Structs(entries, n)|
  {
    hide WantsUdt;
    if n > 0 {
      CountStructsIsCount(entries, n - 1);
      StructsStep(entries, n - 1);
      hide Structs;
    } else {
      assert Structs(entries, n) == {};
    }
  }

  /** The loop that queues the UDTs of the listed tags. */
  method QueueTags(plc: Plc, cache: Cache, head: TagEntry?, ghost entries: seq<TagEntry>, ghost left: set<nat>)
      returns (ok: bool)
    requires cache.Valid() && Linked(head, entries)
    requires Progress(plc, cache.udts[..], left, cache.toProcess[cache.current..], cache.fetched)
    modifies cache`toProcess
    ensures cache.Valid() && cache.current == old(cache.current)
    ensures ok ==> |cache.toProcess| == |old(cache.toProcess)| + CountStructs(entries, |entries|)
    ensures !ok ==> |cache.toProcess| >= MAX_UDTS
    ensures ok ==> Progress(plc, cache.udts[..], left + Roots(entries, |entries|), cache.toProcess[cache.current..],
                            cache.fetched)
  {
    hide Progress, Linked, Roots, CountStructs;
    ghost var n := 0;
    FirstOf(head, entries, left);
    var entry := head;
    while entry != null
      invariant n <= |entries| && entry == if n < |entries| then entries[n] else null
      invariant cache.Valid() && cache.current == old(cache.current)
      invariant |cache.toProcess| == |old(cache.toProcess)| + CountStructs(entries, n)
      invariant Progress(plc, cache.udts[..], left + Roots(entries, n), cache.toProcess[cache.current..], cache.fetched)
      decreases |entries| - n
    {
      NextOf(head, entries, n);
      OneMoreRoot(entries, n, left);
      ok := cache.QueueTagType(plc, entry.elementType, left + Roots(entries, n));
      if !ok {
        return;
      }
      entry, n := entry.next, n + 1;
    }
    ok := true;
  }

  lemma FirstOf(head: TagEntry?, s: seq<TagEntry>, left: set<nat>)
    requires Linked(head, s)
    ensures head == if |s| > 0 then s[0] else null
    ensures left + Roots(s, 0) == left && CountStructs(s, 0) == 0
  {
  }

  lemma OneMoreRoot(s: seq<TagEntry>, n: nat, left: set<nat>)
    requires n < |s|
    ensures left + Roots(s, n + 1) == left + Roots(s, n) + TypeRoots(s[n].elementType)
    ensures CountStructs(s, n + 1) == CountStructs(s, n) + if WantsUdt(s[n].elementType) then 1 else 0
  {
  }

  /** The controller's tags and those of all programs. */
  method ListAll(controller: Answer, lister: Lister)
      returns (ok: bool, head: TagEntry?, ghost own: seq<TagEntry>, ghost added: seq<TagEntry>)
    ensures ok <==> controller.Data? && |controller.data| >= 4 && AllListable(lister, own, |own|)
    ensures Usable(controller) ==> ShowReversed(own, Records(controller.data, 0), null)
    ensures ok ==> Linked(head, added + own) && AddedBy(lister, own, |own|, added)
  {
    hide Linked, ShowReversed, AddedBy, AllListable, Records, Requests;
    if !Usable(controller) {
      return false, null, [], [];
    }
    NoEntries();
    head, own := GetTagList(controller.data, null, null, []);
    assert own + [] == own;
    var asked;
    ghost var visited;
    ok, head, asked, visited, added := WalkPrograms(lister, head, own);
  }

  /**
   * The whole listing. The ids that a former call left in the queue count as roots too: the indices into the queue
   * are never reset. The length of the queue is exact, so the source's array of 4096 slots is exceeded just when
   * that length is more than 4096.
   */
  method ListTags(controller: Answer, lister: Lister, plc: Plc, cache: Cache)
      returns (rc: Outcome, head: TagEntry?, ghost own: seq<TagEntry>, ghost added: seq<TagEntry>)
    requires cache.Valid()
    modifies cache, cache.udts
    ensures rc != Exited ==> cache.Valid() && Usable(controller) && Linked(head, added + own)
    ensures rc != Exited ==> ShowReversed(own, Records(controller.data, 0), null) && AddedBy(lister, own, |own|, added)
    ensures rc != Exited ==> AllListable(lister, own, |own|) && NoDuplicates(cache.fetched)
    ensures rc != Exited ==>
              |cache.toProcess| == |old(cache.toProcess)| + CountStructs(added + own, |added + own|)
                                   + Growth(plc, cache.fetched)
    ensures rc == Ok ==> cache.current == |cache.toProcess| && Right(plc, cache.udts[..])
    ensures var roots := SetOf(old(cache.toProcess[cache.current..])) + Roots(added + own, |added + own|);
      && (rc == Ok ==> forall id: nat :: Has(cache.udts[..], id) <==> Reachable(plc, roots, id))
      && (rc == NotSupported ==> cache.Stopped(plc, roots))
      && (rc == Exited ==>
            || !Usable(controller) || !AllListable(lister, own, |own|) || |cache.toProcess| >= MAX_UDTS
            || exists id :: Reachable(plc, roots, id) && !Good(plc, id))
  {
    hide Progress, Linked, Roots, CountStructs, Right, Reachable, ShowReversed, AddedBy, AllListable, Records, Has,
         NoDuplicates, Growth, Cache.Stopped;
    ghost var left := SetOf(cache.toProcess[cache.current..]);
    cache.Clear();
    ClearedIsProgress(plc, cache.toProcess[cache.current..]);
    var ok;
    ok, head, own, added := ListAll(controller, lister);
    if !ok {
      return Exited, null, own, added;
    }
    ok := QueueTags(plc, cache, head, added + own, left);
    if !ok {
      return Exited, null, own, added;
    }
    NoGrowth(plc);
    rc := cache.Drain(plc, left + Roots(added + own, |added + own|));
    StoppedIsValid(cache, plc, left + Roots(added + own, |added + own|));
  }

  lemma NoGrowth(plc: Plc)
    ensures Growth(plc, []) == 0
  {
  }

  lemma StoppedIsValid(cache: Cache, plc: Plc, roots: set<nat>)
    ensures cache.Stopped(plc, roots) ==> cache.Valid()
  {
  }

  /**
   * Two calls of one process, the first with nothing left over. When the first drains its queue, the second defines
   * just what its own tags need. When the first meets an id that the PLC cannot describe, the second also fetches
   * what the first left behind: that id, and whatever its pending ids reach.
   */
  method ListTwice(controller1: Answer, lister1: Lister, plc1: Plc, controller2: Answer, lister2: Lister, plc2: Plc,
                   cache: Cache)
      returns (rc1: Outcome, rc2: Outcome, ghost tags1: seq<TagEntry>, ghost tags2: seq<TagEntry>, ghost left: set<nat>)
    requires cache.Valid() && cache.current == |cache.toProcess|
    modifies cache, cache.udts
    ensures rc1 == Ok ==> left == {}
    ensures rc1 == NotSupported ==>
              exists id :: id in left && plc1(id).Unsupported? && Reachable(plc1, Roots(tags1, |tags1|), id)
    ensures rc1 != Exited ==> forall id :: id in left ==> Reachable(plc1, Roots(tags1, |tags1|), id)
    ensures rc1 != Exited && rc2 == Ok ==>
              forall id: nat :: Has(cache.udts[..], id) <==> Reachable(plc2, left + Roots(tags2, |tags2|), id)
    ensures rc1 == NotSupported && rc2 == Ok ==>
              exists id: nat :: Has(cache.udts[..], id) && plc1(id).Unsupported?
  {
    hide Linked, Roots, CountStructs, Right, Reachable, ShowReversed, AddedBy, AllListable, Records, Has, Growth,
         NoDuplicates;
    rc2, tags1, tags2, left := Exited, [], [], {};
    ghost var own, added;
    var head;
    NothingLeft(cache.toProcess, cache.current);
    rc1, head, own, added := ListTags(controller1, lister1, plc1, cache);
    tags1 := added + own;
    assert {} + Roots(tags1, |tags1|) == Roots(tags1, |tags1|);
    if rc1 == Exited {
      return;
    }
    left := SetOf(cache.toProcess[cache.current..]);
    ghost var id := 0;
    if rc1 == Ok {
      NothingLeft(cache.toProcess, cache.current);
    } else {
      id := LeftBehind(cache, plc1, Roots(tags1, |tags1|));
    }
    rc2, head, own, added := ListTags(controller2, lister2, plc2, cache);
    tags2 := added + own;
    if rc1 == NotSupported && rc2 == Ok {
      RootIsReachable(plc2, left + Roots(tags2, |tags2|), id);
    }
  }

  lemma NothingLeft(queue: seq<nat>, current: nat)
    requires current == |queue|
    ensures SetOf(queue[current..]) == {}
  {
  }

  /** The id that stopped the loop, among all that it left behind. */
  lemma LeftBehind(cache: Cache, plc: Plc, roots: set<nat>) returns (id: nat)
    requires cache.Stopped(plc, roots)
    ensures id in SetOf(cache.toProcess[cache.current..]) && plc(id).Unsupported?
    ensures forall x :: x in SetOf(cache.toProcess[cache.current..]) ==> Reachable(plc, roots, x)
  {
    id := cache.toProcess[cache.current];
    assert cache.toProcess[cache.current..][0] == id;
    KeptAndPending(plc, cache.udts[..], roots, cache.toProcess[cache.current..], cache.fetched[..|cache.fetched| - 1]);
  }

  lemma NoEntries()
    ensures Linked(null, [])
  {
  }
}
