/** Whole runs of a uthash table: any legal sequence of adds, deletes and sorts. */
module UtHashRun {
  import opened UtHashLinks
  import opened UtHash
  import opened UtHashTable
  import opened StableMerge

  datatype Op = AddOp(item: Handle) | DeleteOp(item: Handle) | SortOp(cmp: Cmp<Handle>)

  /** The items in the table after an operation, and after a run. */
  ghost function After(s: set<Handle>, op: Op): set<Handle> {
    match op
    case AddOp(h) => s + {h}
    case DeleteOp(h) => s - {h}
    case SortOp(_) => s
  }

  ghost function AfterAll(s: set<Handle>, ops: seq<Op>): set<Handle>
    decreases |ops|
  {
    if ops == [] then s else AfterAll(After(s, ops[0]), ops[1..])
  }

  /** What uthash.h demands: fresh keys on add, present items on delete, a preorder to sort by. */
  ghost predicate Allowed(s: set<Handle>, op: Op) {
    match op
    case AddOp(h) => h !in s && forall g :: g in s ==> g.key != h.key
    case DeleteOp(h) => h in s
    case SortOp(cmp) =>
      && (forall x, y {:trigger cmp(x, y)} :: x in s && y in s ==> cmp(x, y) <= 0 || cmp(y, x) <= 0)
      && (forall x, y, z {:trigger cmp(x, y), cmp(y, z)} ::
            x in s && y in s && z in s && cmp(x, y) <= 0 && cmp(y, z) <= 0 ==> cmp(x, z) <= 0)
  }

  ghost predicate Legal(s: set<Handle>, ops: seq<Op>)
    decreases |ops|
  {
    ops == [] || (Allowed(s, ops[0]) && Legal(After(s, ops[0]), ops[1..]))
  }

  ghost function Added(ops: seq<Op>): set<Handle> {
    set op | op in ops && op.AddOp? :: op.item
  }

  lemma AddedSteps(ops: seq<Op>)
    requires ops != []
    ensures Added(ops[1..]) <= Added(ops)
    ensures ops[0].AddOp? ==> ops[0].item in Added(ops)
  {
  }

  /** The objects a table may be made of. */
  ghost function Parts(t: HashTable): set<object?>
    reads t, t.tbl
  {
    {t} + (if t.tbl == null then {} else {t.tbl, t.tbl.buckets, t.tbl.bloomBv})
  }

  /** One operation keeps the table valid and changes the item set as intended. */
  method Step(t: HashTable, op: Op)
    requires t.Valid() && Allowed(SetOf(t.items), op) && |t.items| < 0xFFFF_FFFF
    modifies Parts(t), SetOf(t.items), if op.AddOp? then {op.item} else {}
    ensures t.Valid() && SetOf(t.items) == After(old(SetOf(t.items)), op)
    ensures fresh(Parts(t) - old(Parts(t)))
    ensures |t.items| <= old(|t.items|) + 1
  {
    match op
    case AddOp(h) =>
      StepAdd(t, h);
    case DeleteOp(h) =>
      StepDelete(t, h);
    case SortOp(cmp) =>
      StepSort(t, cmp);
  }

  lemma SetOfAppend(s: seq<Handle>, h: Handle)
    ensures SetOf(s + [h]) == SetOf(s) + {h}
  {
  }

  method StepAdd(t: HashTable, h: Handle)
    requires t.Valid() && Allowed(SetOf(t.items), AddOp(h))
    modifies Parts(t), SetOf(t.items), h
    ensures t.Valid() && SetOf(t.items) == old(SetOf(t.items)) + {h} && |t.items| == old(|t.items|) + 1
    ensures fresh(Parts(t) - old(Parts(t)))
  {
    hide HashTable.Valid, Table.Fills;
    SetOfAppend(t.items, h);
    t.Add(h);
  }

  method StepDelete(t: HashTable, h: Handle)
    requires t.Valid() && h in t.items
    modifies Parts(t), SetOf(t.items)
    ensures t.Valid() && SetOf(t.items) == old(SetOf(t.items)) - {h} && |t.items| == old(|t.items|) - 1
    ensures Parts(t) <= old(Parts(t))
  {
    hide AppLinked, Table.Ok;
    ghost var k := t.Delete(h);
    WithoutKeepsDistinct(old(t.items), k);
  }

  method StepSort(t: HashTable, cmp: Cmp<Handle>)
    requires t.Valid() && Allowed(SetOf(t.items), SortOp(cmp)) && |t.items| <= 0xFFFF_FFFF
    modifies Parts(t), SetOf(t.items)
    ensures t.Valid() && SetOf(t.items) == old(SetOf(t.items)) && |t.items| == old(|t.items|)
    ensures Parts(t) == old(Parts(t))
  {
    hide HashTable.Valid;
    PreorderOnItems(t.items, cmp);
    t.Sort(cmp);
    SameElements(t.items, old(t.items));
  }

  lemma PreorderOnItems(s: seq<Handle>, cmp: Cmp<Handle>)
    requires Allowed(SetOf(s), SortOp(cmp))
    ensures PreorderOn(cmp, s)
  {
    assert forall x :: x in s ==> x in SetOf(s);
  }

  /** After any legal run the table holds exactly the items the run left in it, is sound, and keeps its chains short. */
  method Run(t: HashTable, ops: seq<Op>)
    requires t.Valid() && Legal(SetOf(t.items), ops) && |t.items| + |ops| <= 0xFFFF_FFFF
    modifies Parts(t), SetOf(t.items), Added(ops)
    ensures t.Valid() && SetOf(t.items) == AfterAll(old(SetOf(t.items)), ops)
    ensures t.tbl != null ==> t.tbl.Bounded()
    decreases |ops|
  {
    if ops != [] {
      AddedSteps(ops);
      Step(t, ops[0]);
      Run(t, ops[1..]);
    }
  }

  /** HASH_FIND after a run: the item for a key, exactly when the run left one in the table. */
  method FindAfterRun(t: HashTable, ops: seq<Op>, key: Key) returns (out: Handle?)
    requires t.Valid() && Legal(SetOf(t.items), ops) && |t.items| + |ops| <= 0xFFFF_FFFF
    modifies Parts(t), SetOf(t.items), Added(ops)
    ensures out != null ==> out.key == key && out in AfterAll(old(SetOf(t.items)), ops)
    ensures out == null ==> forall h :: h in AfterAll(old(SetOf(t.items)), ops) ==> h.key != key
  {
    Run(t, ops);
    out := t.Find(key);
  }
}
