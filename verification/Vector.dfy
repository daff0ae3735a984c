/**
 * The growable array of utils/vector.c. A vector holds pointers, of which None stands for NULL; whether an
 * allocation succeeds is a parameter.
 */
module Vector {
  import opened Basics

  // ---- what the operations mean for the sequence of elements

  function Nulls<T>(n: nat): seq<Option<T>> {
    seq(n, _ => None)
  }

  /** s lengthened with NULLs to at least n elements. */
  function Padded<T>(s: seq<Option<T>>, n: nat): (p: seq<Option<T>>)
    ensures |p| == if n > |s| then n else |s|
  {
    if n > |s| then s + Nulls(n - |s|) else s
  }

  function Updated<T>(s: seq<Option<T>>, i: nat, x: Option<T>): seq<Option<T>> {
    Padded(s, i + 1)[i := x]
  }

  function Inserted<T>(s: seq<Option<T>>, i: nat, x: Option<T>): seq<Option<T>> {
    Padded(s, i)[..i] + [x] + Padded(s, i)[i..]
  }

  function Deleted<T>(s: seq<Option<T>>, i: nat): seq<Option<T>>
    requires i < |s|
  {
    s[..i] + s[i + 1..]
  }

  /** Where each element is after an update, an insertion and a deletion. */
  lemma UpdatedAt<T>(s: seq<Option<T>>, i: nat, x: Option<T>, k: nat)
    requires k < |Updated(s, i, x)|
    ensures |Updated(s, i, x)| == if i < |s| then |s| else i + 1
    ensures Updated(s, i, x)[k] == if k == i then x else if k < |s| then s[k] else None
  {
  }

  lemma InsertedAt<T>(s: seq<Option<T>>, i: nat, x: Option<T>, k: nat)
    requires k < |Inserted(s, i, x)|
    ensures |Inserted(s, i, x)| == if i < |s| then |s| + 1 else i + 1
    ensures Inserted(s, i, x)[k]
         == if k == i then x else if k > i then s[k - 1] else if k < |s| then s[k] else None
  {
  }

  lemma DeletedAt<T>(s: seq<Option<T>>, i: nat, k: nat)
    requires i < |s| && k < |s| - 1
    ensures |Deleted(s, i)| == |s| - 1
    ensures Deleted(s, i)[k] == if k < i then s[k] else s[k + 1]
  {
  }

  /** Inserting outside the vector is the same as setting there. */
  lemma InsertOutsideIsUpdate<T>(s: seq<Option<T>>, i: nat, x: Option<T>)
    requires i >= |s|
    ensures Inserted(s, i, x) == Updated(s, i, x)
  {
    var p := Padded(s, i);
    assert p[..i] == p && p[i..] == [];
    assert Updated(s, i, x) == p + [x];
  }

  /** A removal takes back an insertion exactly when that was not beyond the end. */
  lemma DeleteUndoesInsertIff<T>(s: seq<Option<T>>, i: nat, x: Option<T>)
    ensures Deleted(Inserted(s, i, x), i) == s <==> i <= |s|
  {
    var t := Inserted(s, i, x);
    assert t[..i] == Padded(s, i)[..i] && t[i + 1..] == Padded(s, i)[i..];
    assert Deleted(t, i) == Padded(s, i);
  }

  lemma SplitAt<T>(s: seq<T>, i: nat)
    requires i < |s|
    ensures s == s[..i] + [s[i]] + s[i + 1..]
  {
  }

  /** Half the capacity, but at least one slot and at most maxInc. */
  function Growth(capacity: nat, maxInc: nat): (inc: nat)
    requires maxInc >= 1
    ensures 1 <= inc <= maxInc
    ensures inc == 1 || 2 * inc <= capacity
    ensures inc == maxInc || capacity <= 2 * inc + 1
  {
    var half := capacity / 2;
    var clamped := if half > maxInc then maxInc else half;
    if clamped < 1 then 1 else clamped
  }

  // ---- the code

  class Vector<T> {
    var len: nat
    var capacity: nat
    const maxInc: nat
    var data: array<Option<T>>

    ghost predicate Valid()
      reads this, data
    {
      && len <= capacity == data.Length && capacity >= 1 && maxInc >= 1
      && forall i :: len <= i < data.Length ==> data[i] == None
    }

    ghost function Contents(): seq<Option<T>>
      reads this, data
      requires Valid()
    {
      data[..len]
    }

    constructor (capacity: nat, maxInc: nat)
      requires capacity >= 1 && maxInc >= 1
      ensures Valid() && fresh(data) && Contents() == [] && this.capacity == capacity && this.maxInc == maxInc
    {
      this.len, this.capacity, this.maxInc := 0, capacity, maxInc;
      data := new Option<T>[capacity](_ => None);
    }

    /** ensure_capacity(): one growth step at most, which need not be enough. */
    method EnsureCapacity(wanted: nat, enoughMemory: bool) returns (rc: int)
      requires Valid()
      modifies this
      ensures Valid() && Contents() == old(Contents()) && len == old(len)
      ensures rc == if wanted <= old(capacity) || enoughMemory then PLCTAG_STATUS_OK else PLCTAG_ERR_NO_MEM
      ensures wanted <= old(capacity) || !enoughMemory ==> capacity == old(capacity) && data == old(data)
      ensures wanted > old(capacity) && enoughMemory ==>
                capacity == old(capacity) + Growth(old(capacity), maxInc) && fresh(data)
      ensures rc == PLCTAG_STATUS_OK ==> (wanted <= capacity <==> wanted <= old(capacity) + Growth(old(capacity), maxInc))
    {
      if wanted <= capacity {
        return PLCTAG_STATUS_OK;
      }
      var newInc := capacity / 2;
      if newInc > maxInc { newInc := maxInc; }
      if newInc < 1 { newInc := 1; }
      if !enoughMemory {
        return PLCTAG_ERR_NO_MEM;
      }
      var newData := new Option<T>[capacity + newInc](_ => None);
      forall i | 0 <= i < capacity {
        newData[i] := data[i];
      }
      assert newData[..len] == data[..len];
      data := newData;
      capacity := capacity + newInc;
      rc := PLCTAG_STATUS_OK;
    }

    /** vector_set(); the index must lie within one growth step of the capacity. */
    method Set(index: int, x: Option<T>, enoughMemory: bool) returns (rc: int)
      requires Valid() && index < capacity + Growth(capacity, maxInc)
      modifies this, data
      ensures Valid() && (data == old(data) || fresh(data))
      ensures rc == if index < 0 then PLCTAG_ERR_OUT_OF_BOUNDS
                    else if index < old(capacity) || enoughMemory then PLCTAG_STATUS_OK else PLCTAG_ERR_NO_MEM
      ensures Contents() == if rc == PLCTAG_STATUS_OK then Updated(old(Contents()), index, x) else old(Contents())
    {
      if index < 0 {
        return PLCTAG_ERR_OUT_OF_BOUNDS;
      }
      rc := EnsureCapacity(index + 1, enoughMemory);
      if rc == PLCTAG_STATUS_OK {
        Store(index, x);
      }
    }

    /** Puts x into a slot that is there, and counts the slots before it in. */
    method Store(index: nat, x: Option<T>)
      requires Valid() && index < capacity
      modifies this`len, data
      ensures Valid() && Contents() == Updated(old(Contents()), index, x)
    {
      ghost var longer := if index >= len then index + 1 else len;
      assert data[..longer] == Padded(Contents(), index + 1);
      ghost var was := data[..longer];
      data[index] := x;
      if index >= len {
        len := index + 1;
      }
      assert data[..longer] == was[index := x];
    }

    /** vector_insert() */
    method Insert(index: int, x: Option<T>, enoughMemory: bool) returns (rc: int)
      requires Valid() && index < capacity + Growth(capacity, maxInc)
      modifies this, data
      ensures Valid() && (data == old(data) || fresh(data))
      ensures var needed := if index < old(len) then old(len) + 1 else index + 1;
        rc == if index < 0 then PLCTAG_ERR_OUT_OF_BOUNDS
              else if needed <= old(capacity) || enoughMemory then PLCTAG_STATUS_OK else PLCTAG_ERR_NO_MEM
      ensures Contents() == if rc == PLCTAG_STATUS_OK then Inserted(old(Contents()), index, x) else old(Contents())
    {
      if index < 0 {
        return PLCTAG_ERR_OUT_OF_BOUNDS;
      }
      if index >= len {
        InsertOutsideIsUpdate(Contents(), index, x);
        rc := Set(index, x, enoughMemory);
        return;
      }
      rc := EnsureCapacity(len + 1, enoughMemory);
      if rc == PLCTAG_STATUS_OK {
        MoveUp(index, x);
      }
    }

    /** Moves everything from index on up one slot and puts x there. */
    method MoveUp(index: nat, x: Option<T>)
      requires Valid() && index < len < capacity
      modifies this`len, data
      ensures Valid() && Contents() == Inserted(old(Contents()), index, x)
    {
      ghost var was := Contents();
      forall k | index < k <= len {
        data[k] := data[k - 1];
      }
      data[index] := x;
      len := len + 1;
      assert data[..index] == was[..index];
      assert data[index + 1..len] == was[index..];
      SplitAt(data[..len], index);
    }

    /** vector_get() */
    method Get(index: int) returns (x: Option<T>)
      requires Valid()
      ensures x == if 0 <= index < len then Contents()[index] else None
    {
      if index < 0 || index >= len {
        return None;
      }
      x := data[index];
    }

    /** vector_remove() */
    method Remove(index: int) returns (x: Option<T>)
      requires Valid()
      modifies this`len, data
      ensures Valid() && capacity == old(capacity)
      ensures 0 <= index < old(len) ==> x == old(Contents())[index] && Contents() == Deleted(old(Contents()), index)
      ensures !(0 <= index < old(len)) ==> x == None && Contents() == old(Contents())
    {
      if index < 0 || index >= len {
        return None;
      }
      x := data[index];
      MoveDown(index);
    }

    /** Moves everything after index down one slot and clears the last one. */
    method MoveDown(index: nat)
      requires Valid() && index < len
      modifies this`len, data
      ensures Valid() && Contents() == Deleted(old(Contents()), index)
    {
      ghost var was := Contents();
      forall k | index <= k < len - 1 {
        data[k] := data[k + 1];
      }
      data[len - 1] := None;
      len := len - 1;
      forall k | 0 <= k < len
        ensures data[..len][k] == Deleted(was, index)[k]
      {
        assert data[k] == if k < index then was[k] else was[k + 1];
      }
    }
  }

  /** vector_create(): null for a size that is not positive, or without memory. */
  method Create<T>(capacity: int, maxInc: int, enoughMemory: bool) returns (vec: Vector?<T>)
    ensures vec != null <==> capacity > 0 && maxInc > 0 && enoughMemory
    ensures vec != null ==>
      fresh(vec) && vec.Valid() && vec.Contents() == [] && vec.capacity == capacity && vec.maxInc == maxInc
  {
    if capacity <= 0 || maxInc <= 0 || !enoughMemory {
      return null;
    }
    vec := new Vector<T>(capacity, maxInc);
  }
}
