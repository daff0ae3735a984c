/**
 * The discovery of UDT definitions in list_tags.cpp: a worklist of template ids, fed by the structure-typed tags
 * and by the fields of every definition fetched. UDT names are not part of this model.
 */
module UdtWorklist {
  import opened Basics
  import opened Bits
  import opened PlcBytes

  const TYPE_IS_STRUCT: nat := 0x8000
  const TYPE_IS_SYSTEM: nat := 0x1000
  const TYPE_UDT_ID_MASK: nat := 0x0FFF
  const MAX_UDTS: nat := 4096

  /** Names of this length and more end the process. */
  const MAX_NAME: nat := 256

  /** What the PLC answers to "@udt/id". */
  datatype Reply = Payload(data: seq<Byte>) | Unsupported | Failed

  type Plc = nat -> Reply

  /** udt_field_entry_s and udt_entry_s */
  datatype Field = Field(metadata: nat, elementType: nat, offset: nat)
  datatype Udt = Udt(id: nat, numFields: nat, structHandle: nat, instanceSize: nat, fields: seq<Field>)

  /** Does a type call for a UDT definition, and for which? */
  predicate WantsUdt(elementType: nat) {
    And(elementType, TYPE_IS_STRUCT) != 0 && And(elementType, TYPE_IS_SYSTEM) == 0
  }

  function UdtId(elementType: nat): (id: nat)
    ensures id < MAX_UDTS
  {
    MaskIsModulo(elementType, 12);
    assert Pow2(12) == MAX_UDTS by { PowerTwelve(); }
    And(elementType, TYPE_UDT_ID_MASK)
  }

  lemma PowerTwelve()
    ensures Pow2(12) == 0x1000 && Pow2(15) == 0x8000
  {
    assert Pow2(4) == 16;
    assert Pow2(8) == 256;
  }

  /** In terms of the number: bit 15 is set, bit 12 is not, and the lowest twelve bits are the id. */
  lemma WantsUdtIff(elementType: nat)
    ensures WantsUdt(elementType) <==> elementType / 0x8000 % 2 == 1 && elementType / 0x1000 % 2 == 0
    ensures UdtId(elementType) == elementType % 0x1000
  {
    hide And, Pow2;
    PowerTwelve();
    AndWithPow2(elementType, 15);
    AndWithPow2(elementType, 12);
    MaskIsModulo(elementType, 12);
  }

  // ---- what a payload defines

  /** The k-th field descriptor: eight bytes each, after a header of fourteen. */
  function FieldAt(data: seq<Byte>, k: nat): Field {
    var offset := 14 + 8 * k;
    Field(Get16(data, offset), Get16(data, offset + 2), Get32(data, offset + 4))
  }

  /** What is known of a UDT once the first n fields have been read. */
  function Decoded(id: nat, data: seq<Byte>, n: nat): Udt {
    Udt(id, Get16(data, 10), Get16(data, 12), Get32(data, 6), seq(n, (k: nat) => FieldAt(data, k)))
  }

  /** The names of n fields, zero-terminated, can be read from offset on, as far as there are any. */
  predicate FieldNamesReadable(data: seq<Byte>, offset: nat, n: nat)
    decreases n
  {
    n > 0 && offset < |data| ==>
      && StringLength(data, offset) < MAX_NAME
      && FieldNamesReadable(data, offset + StringLength(data, offset) + 1, n - 1)
  }

  /** The names that follow n field descriptors can be read: first that of the UDT, then those of its fields. */
  predicate NamesReadable(data: seq<Byte>, n: nat) {
    var offset := 14 + 8 * n;
    && offset <= |data|
    && FieldNamesReadable(data, offset + StringLength(data, offset) + 1, n)
  }

  /** The answer for id is a definition of id. */
  predicate Good(plc: Plc, id: nat) {
    && plc(id).Payload? && Get16(plc(id).data, 0) == id
    && NamesReadable(plc(id).data, Get16(plc(id).data, 10))
  }

  /** An answer that ends before its field descriptors do is refused. */
  lemma TooShortIsNotGood(plc: Plc, id: nat)
    requires plc(id).Payload? && |plc(id).data| < 14 + 8 * Get16(plc(id).data, 10)
    ensures !Good(plc, id)
  {
  }

  function Definition(plc: Plc, id: nat): Udt
    requires Good(plc, id)
  {
    Decoded(id, plc(id).data, Get16(plc(id).data, 10))
  }

  // ---- the wire form of a definition

  predicate Sendable(u: Udt) {
    && u.id < 0x1_0000 && u.numFields == |u.fields| < 0x1_0000 && u.structHandle < 0x1_0000
    && u.instanceSize < 0x1_0000_0000
    && AllSendable(u.fields)
  }

  predicate AllSendable(fs: seq<Field>) {
    forall k :: 0 <= k < |fs| ==> FieldSendable(fs[k])
  }

  predicate FieldSendable(f: Field) {
    f.metadata < 0x1_0000 && f.elementType < 0x1_0000 && f.offset < 0x1_0000_0000
  }

  function EncodeField(f: Field): (bytes: seq<Byte>)
    requires FieldSendable(f)
    ensures |bytes| == 8
  {
    Put16(f.metadata) + Put16(f.elementType) + Put32(f.offset)
  }

  function EncodeFields(fs: seq<Field>): (bytes: seq<Byte>)
    requires AllSendable(fs)
    ensures |bytes| == 8 * |fs|
  {
    if fs == [] then [] else EncodeFields(fs[..|fs| - 1]) + EncodeField(fs[|fs| - 1])
  }

  /** Zero-terminated names, one after the other. */
  function EncodeNames(names: seq<seq<Byte>>): seq<Byte> {
    if names == [] then [] else names[0] + [0] + EncodeNames(names[1..])
  }

  /** The header of fourteen bytes; the size of the field descriptors, in words, is not looked at. */
  function EncodeHeader(u: Udt, descriptionSize: nat): (bytes: seq<Byte>)
    requires Sendable(u) && descriptionSize < 0x1_0000_0000
    ensures |bytes| == 14
  {
    Put16(u.id) + Put32(descriptionSize) + Put32(u.instanceSize) + Put16(u.numFields) + Put16(u.structHandle)
  }

  function EncodeUdt(u: Udt, descriptionSize: nat, names: seq<seq<Byte>>): seq<Byte>
    requires Sendable(u) && descriptionSize < 0x1_0000_0000
  {
    EncodeHeader(u, descriptionSize) + EncodeFields(u.fields) + EncodeNames(names)
  }

  lemma {:induction false} FieldOfEncoded(fs: seq<Field>, k: nat)
    requires k < |fs| && AllSendable(fs)
    ensures EncodeFields(fs)[8 * k..8 * k + 8] == EncodeField(fs[k])
  {
    var n := |fs| - 1;
    var first := EncodeFields(fs[..n]);
    assert EncodeFields(fs) == first + EncodeField(fs[n]);
    if k < n {
      FieldOfEncoded(fs[..n], k);
      assert EncodeFields(fs)[8 * k..8 * k + 8] == first[8 * k..8 * k + 8];
    }
  }

  lemma DecodedField(data: seq<Byte>, at: nat, f: Field)
    requires FieldSendable(f) && at + 8 <= |data| && data[at..at + 8] == EncodeField(f)
    ensures Field(Get16(data, at), Get16(data, at + 2), Get32(data, at + 4)) == f
  {
    hide Get16, Get32, Put16, Put32;
    var e := EncodeField(f);
    assert e[0..2] == Put16(f.metadata) && e[2..4] == Put16(f.elementType) && e[4..8] == Put32(f.offset);
    Slice16(data, at, e, 0, f.metadata);
    Slice16(data, at, e, 2, f.elementType);
    Slice32(data, at, e, 4, f.offset);
  }

  lemma FieldAtOffset(data: seq<Byte>, k: nat, at: nat)
    requires at == 14 + 8 * k
    ensures FieldAt(data, k) == Field(Get16(data, at), Get16(data, at + 2), Get32(data, at + 4))
  {
  }

  lemma SliceOfPart(data: seq<Byte>, part: seq<Byte>, end: nat, lo: nat, piece: seq<Byte>)
    requires 14 <= end <= |data| && data[14..end] == part && lo + 8 <= |part| && part[lo..lo + 8] == piece
    ensures 14 + lo + 8 <= |data| && data[14 + lo..14 + lo + 8] == piece
  {
    SliceOfSlice(data, 14, end, lo, lo + 8);
  }

  lemma OneSendable(fs: seq<Field>, k: nat)
    requires k < |fs| && AllSendable(fs)
    ensures FieldSendable(fs[k])
  {
  }

  lemma FieldInData(data: seq<Byte>, fs: seq<Field>, k: nat)
    requires k < |fs| && AllSendable(fs)
    requires 14 + 8 * |fs| <= |data| && data[14..14 + 8 * |fs|] == EncodeFields(fs)
    ensures FieldAt(data, k) == fs[k]
  {
    hide *;
    OneSendable(fs, k);
    FieldOfEncoded(fs, k);
    SliceOfPart(data, EncodeFields(fs), 14 + 8 * |fs|, 8 * k, EncodeField(fs[k]));
    DecodedField(data, 14 + 8 * k, fs[k]);
    FieldAtOffset(data, k, 14 + 8 * k);
  }

  lemma DecodedHeader(data: seq<Byte>, u: Udt, descriptionSize: nat)
    requires Sendable(u) && descriptionSize < 0x1_0000_0000
    requires 14 <= |data| && data[..14] == EncodeHeader(u, descriptionSize)
    ensures Get16(data, 0) == u.id && Get32(data, 6) == u.instanceSize
    ensures Get16(data, 10) == u.numFields && Get16(data, 12) == u.structHandle
  {
    hide Get16, Get32, Put16, Put32;
    var e := EncodeHeader(u, descriptionSize);
    assert data[0..0 + |e|] == e;
    assert e[0..2] == Put16(u.id) && e[6..10] == Put32(u.instanceSize);
    assert e[10..12] == Put16(u.numFields) && e[12..14] == Put16(u.structHandle);
    Slice16(data, 0, e, 0, u.id);
    Slice32(data, 0, e, 6, u.instanceSize);
    Slice16(data, 0, e, 10, u.numFields);
    Slice16(data, 0, e, 12, u.structHandle);
  }

  lemma {:induction false} LengthOfName(data: seq<Byte>, offset: nat, name: seq<Byte>)
    requires 0 !in name && offset + |name| < |data|
    requires data[offset..offset + |name|] == name && data[offset + |name|] == 0
    ensures StringLength(data, offset) == |name|
    decreases |name|
  {
    if name != [] {
      assert data[offset] == data[offset..offset + |name|][0] == name[0];
      assert name[0] in name;
      assert data[offset + 1..offset + 1 + |name[1..]|] == data[offset..offset + |name|][1..];
      LengthOfName(data, offset + 1, name[1..]);
    }
  }

  lemma FirstName(data: seq<Byte>, offset: nat, names: seq<seq<Byte>>)
    requires names != [] && 0 !in names[0] && offset <= |data| && data[offset..] == EncodeNames(names)
    ensures offset < |data| && StringLength(data, offset) == |names[0]|
    ensures offset + |names[0]| + 1 <= |data| && data[offset + |names[0]| + 1..] == EncodeNames(names[1..])
  {
    var n, rest := |names[0]|, EncodeNames(names[1..]);
    assert data[offset..] == names[0] + ([0] + rest);
    assert data[offset..][..n] == names[0] && data[offset..][n] == 0 && data[offset..][n + 1..] == rest;
    LengthOfName(data, offset, names[0]);
  }

  lemma {:induction false} EncodedNamesReadable(data: seq<Byte>, offset: nat, names: seq<seq<Byte>>)
    requires forall i :: 0 <= i < |names| ==> 0 !in names[i]
    requires offset <= |data| && data[offset..] == EncodeNames(names)
    ensures FieldNamesReadable(data, offset, |names|) <==> forall i :: 0 <= i < |names| ==> |names[i]| < MAX_NAME
    decreases |names|
  {
    hide StringLength, EncodeNames;
    if names != [] {
      FirstName(data, offset, names);
      EncodedNamesReadable(data, offset + |names[0]| + 1, names[1..]);
      assert forall i :: 0 < i < |names| ==> names[1..][i - 1] == names[i];
    }
  }

  /**
   * A definition survives the wire: from its encoding, with its name and those of its fields, just this definition is
   * kept, provided that no field name is too long.
   */
  lemma DefinitionRoundTrip(plc: Plc, u: Udt, descriptionSize: nat, names: seq<seq<Byte>>)
    requires Sendable(u) && descriptionSize < 0x1_0000_0000 && |names| == 1 + |u.fields|
    requires forall i :: 0 <= i < |names| ==> 0 !in names[i]
    requires plc(u.id) == Payload(EncodeUdt(u, descriptionSize, names))
    ensures Good(plc, u.id) <==> forall i :: 1 <= i < |names| ==> |names[i]| < 256
    ensures Good(plc, u.id) ==> Definition(plc, u.id) == u
  {
    hide EncodeHeader, EncodeFields, EncodeNames, StringLength, Get16, Get32, FieldNamesReadable, FieldAt;
    var data, n := plc(u.id).data, |u.fields|;
    EncodedParts(u, descriptionSize, names);
    DecodedHeader(data, u, descriptionSize);
    forall k: nat | k < n
      ensures FieldAt(data, k) == u.fields[k]
    {
      FieldInData(data, u.fields, k);
    }
    assert seq(n, (k: nat) => FieldAt(data, k)) == u.fields;
    FirstName(data, 14 + 8 * n, names);
    EncodedNamesReadable(data, 14 + 8 * n + |names[0]| + 1, names[1..]);
    assert forall i :: 1 <= i < |names| ==> names[1..][i - 1] == names[i];
  }

  lemma EncodedParts(u: Udt, descriptionSize: nat, names: seq<seq<Byte>>)
    requires Sendable(u) && descriptionSize < 0x1_0000_0000
    ensures var data, fieldsEnd := EncodeUdt(u, descriptionSize, names), 14 + 8 * |u.fields|;
      && fieldsEnd <= |data| && data[..14] == EncodeHeader(u, descriptionSize)
      && data[14..fieldsEnd] == EncodeFields(u.fields) && data[fieldsEnd..] == EncodeNames(names)
  {
    hide EncodeHeader, EncodeFields, EncodeNames;
  }

  // ---- the type graph

  /** The udt u has a field that is itself of the UDT c. */
  ghost predicate Child(u: Udt, c: nat) {
    exists k :: 0 <= k < |u.fields| && WantsUdt(u.fields[k].elementType) && UdtId(u.fields[k].elementType) == c
  }

  /** The same in terms of the field's type alone. */
  lemma ChildIff(u: Udt, c: nat)
    ensures Child(u, c) <==>
            exists k :: 0 <= k < |u.fields| && u.fields[k].elementType / 0x8000 % 2 == 1
                     && u.fields[k].elementType / 0x1000 % 2 == 0 && u.fields[k].elementType % 0x1000 == c
  {
    hide WantsUdt, UdtId;
    if k :| 0 <= k < |u.fields| && u.fields[k].elementType / 0x8000 % 2 == 1
            && u.fields[k].elementType / 0x1000 % 2 == 0 && u.fields[k].elementType % 0x1000 == c {
      WantsUdtIff(u.fields[k].elementType);
    }
    if k :| 0 <= k < |u.fields| && WantsUdt(u.fields[k].elementType) && UdtId(u.fields[k].elementType) == c {
      WantsUdtIff(u.fields[k].elementType);
    }
  }

  ghost predicate Edge(plc: Plc, id: nat, c: nat) {
    Good(plc, id) && Child(Definition(plc, id), c)
  }

  ghost predicate EdgeAt(plc: Plc, p: seq<nat>, i: int)
    requires 0 < i < |p|
  {
    Edge(plc, p[i - 1], p[i])
  }

  /** A path through the type graph. */
  ghost predicate Path(plc: Plc, p: seq<nat>) {
    forall i :: 0 < i < |p| ==> EdgeAt(plc, p, i)
  }

  ghost predicate Reachable(plc: Plc, roots: set<nat>, id: nat) {
    exists p :: Path(plc, p) && p != [] && p[0] in roots && p[|p| - 1] == id
  }

  lemma RootIsReachable(plc: Plc, roots: set<nat>, id: nat)
    requires id in roots
    ensures Reachable(plc, roots, id)
  {
    assert Path(plc, [id]);
  }

  lemma ChildIsReachable(plc: Plc, roots: set<nat>, id: nat, c: nat)
    requires Reachable(plc, roots, id) && Edge(plc, id, c)
    ensures Reachable(plc, roots, c)
  {
    hide Edge;
    var p :| Path(plc, p) && p != [] && p[0] in roots && p[|p| - 1] == id;
    var q := p + [c];
    assert q[|q| - 1] == c && q[0] == p[0];
    forall i | 0 < i < |q|
      ensures EdgeAt(plc, q, i)
    {
      if i < |p| {
        assert EdgeAt(plc, p, i);
      }
    }
  }

  // ---- the state of the discovery

  type Defs = seq<Option<Udt>>

  predicate Has(defs: Defs, id: nat) {
    id < |defs| && defs[id].Some?
  }

  /** Only right definitions are kept. */
  ghost predicate Right(plc: Plc, defs: Defs) {
    && |defs| == MAX_UDTS
    && forall id: nat {:trigger Has(defs, id)} :: Has(defs, id) ==> Good(plc, id) && defs[id].value == Definition(plc, id)
  }

  /** Every root, and every child of a definition, is defined or pending. */
  ghost predicate Covered(plc: Plc, defs: Defs, roots: set<nat>, pending: seq<nat>) {
    && (forall r :: r in roots ==> Has(defs, r) || r in pending)
    && (forall id: nat, c: nat {:trigger Child(defs[id].value, c)} ::
          Has(defs, id) && Child(defs[id].value, c) ==> Has(defs, c) || c in pending)
  }

  /** Nothing is defined or pending without being reachable. */
  ghost predicate Wanted(plc: Plc, defs: Defs, roots: set<nat>, pending: seq<nat>) {
    && (forall id: nat {:trigger Has(defs, id)} :: Has(defs, id) ==> Reachable(plc, roots, id))
    && (forall id :: id in pending ==> id < MAX_UDTS && Reachable(plc, roots, id))
  }

  /** The fetches made: each id once, and just those that are defined. */
  ghost predicate FetchedOnce(defs: Defs, fetched: seq<nat>) {
    && NoDuplicates(fetched)
    && (forall id: nat :: id in fetched <==> Has(defs, id))
  }

  predicate NoDuplicates(s: seq<nat>) {
    forall i, j :: 0 <= i < j < |s| ==> s[i] != s[j]
  }

  /** With nothing pending, a path from a root runs through definitions only. */
  lemma {:induction false} PathStaysDefined(plc: Plc, defs: Defs, roots: set<nat>, p: seq<nat>, i: nat)
    requires Right(plc, defs) && Covered(plc, defs, roots, [])
    requires Path(plc, p) && i < |p| && p[0] in roots
    ensures Has(defs, p[i])
  {
    if i > 0 {
      PathStaysDefined(plc, defs, roots, p, i - 1);
      assert EdgeAt(plc, p, i);
    }
  }

  // ---- what a definition adds to the queue

  ghost function Ids(defs: Defs): set<nat> {
    set id: nat | id < |defs| && defs[id].Some?
  }

  ghost function MissingIds(defs: Defs): set<nat> {
    set id: nat | id < |defs| && defs[id].None?
  }

  lemma SameIds(defs: Defs, id: nat, u: Udt)
    requires Has(defs, id)
    ensures Ids(defs[id := Some(u)]) == Ids(defs)
  {
  }

  function QueuedFor(have: set<nat>, f: Field): seq<nat> {
    if WantsUdt(f.elementType) && UdtId(f.elementType) !in have then [UdtId(f.elementType)] else []
  }

  function Queued(have: set<nat>, fields: seq<Field>): seq<nat> {
    if fields == [] then []
    else Queued(have, fields[..|fields| - 1]) + QueuedFor(have, fields[|fields| - 1])
  }

  lemma NothingQueued(have: set<nat>, id: nat, data: seq<Byte>)
    ensures Queued(have, Decoded(id, data, 0).fields) == []
  {
  }

  lemma QueuedNext(have: set<nat>, id: nat, data: seq<Byte>, k: nat)
    ensures Decoded(id, data, k + 1).fields == Decoded(id, data, k).fields + [FieldAt(data, k)]
    ensures Queued(have, Decoded(id, data, k + 1).fields)
         == Queued(have, Decoded(id, data, k).fields) + QueuedFor(have, FieldAt(data, k))
  {
    var longer := Decoded(id, data, k + 1).fields;
    assert longer[..k] == Decoded(id, data, k).fields;
  }

  lemma {:induction false} QueuedAreChildren(have: set<nat>, fields: seq<Field>, c: nat)
    ensures c in Queued(have, fields) <==>
            c !in have
            && exists k :: 0 <= k < |fields| && WantsUdt(fields[k].elementType) && UdtId(fields[k].elementType) == c
  {
    if fields != [] {
      var n := |fields| - 1;
      QueuedAreChildren(have, fields[..n], c);
      if k :| 0 <= k < |fields| && WantsUdt(fields[k].elementType) && UdtId(fields[k].elementType) == c {
        assert k < n ==> fields[..n][k] == fields[k];
      }
    }
  }

  /** A field's UDT is queued exactly when it is not there yet: those of the types with bit 15 set and bit 12 clear. */
  lemma QueuedIffMissing(have: set<nat>, u: Udt, c: nat)
    ensures c in Queued(have, u.fields) <==>
            c !in have
            && exists k :: 0 <= k < |u.fields| && u.fields[k].elementType / 0x8000 % 2 == 1
                        && u.fields[k].elementType / 0x1000 % 2 == 0 && u.fields[k].elementType % 0x1000 == c
    ensures c in Queued(have, u.fields) <==> c !in have && Child(u, c)
  {
    hide Queued;
    QueuedAreChildren(have, u.fields, c);
    ChildIff(u, c);
  }

  /** Everything that holds while the worklist is processed. */
  ghost predicate Progress(plc: Plc, defs: Defs, roots: set<nat>, pending: seq<nat>, fetched: seq<nat>) {
    Right(plc, defs) && Covered(plc, defs, roots, pending) && Wanted(plc, defs, roots, pending) && FetchedOnce(defs, fetched)
  }

  /** What is kept and what is pending at any time of the loop. */
  lemma KeptAndPending(plc: Plc, defs: Defs, roots: set<nat>, pending: seq<nat>, fetched: seq<nat>)
    requires Progress(plc, defs, roots, pending, fetched)
    ensures Right(plc, defs) && NoDuplicates(fetched)
    ensures forall id: nat :: Has(defs, id) ==> Reachable(plc, roots, id)
    ensures forall id :: id in pending ==> id < MAX_UDTS && Reachable(plc, roots, id)
  {
  }

  /** When the worklist has drained, the ids defined are exactly the reachable ones. */
  lemma Drained(plc: Plc, defs: Defs, roots: set<nat>, pending: seq<nat>, fetched: seq<nat>)
    requires Progress(plc, defs, roots, pending, fetched) && pending == []
    ensures Right(plc, defs)
    ensures forall id: nat :: Has(defs, id) <==> Reachable(plc, roots, id)
    ensures forall id :: Reachable(plc, roots, id) ==> Good(plc, id)
  {
    hide Reachable, Covered, Good, Definition, Has;
    forall id: nat | Reachable(plc, roots, id)
      ensures Has(defs, id)
    {
      ReachableIsDefined(plc, defs, roots, id);
    }
  }

  lemma ReachableIsDefined(plc: Plc, defs: Defs, roots: set<nat>, id: nat)
    requires Right(plc, defs) && Covered(plc, defs, roots, []) && Reachable(plc, roots, id)
    ensures Has(defs, id)
  {
    hide Right, Covered, Has, Path;
    var p :| Path(plc, p) && p != [] && p[0] in roots && p[|p| - 1] == id;
    PathStaysDefined(plc, defs, roots, p, |p| - 1);
  }

  /** An id that is already defined can be dropped. */
  lemma SkipKeepsProgress(plc: Plc, defs: Defs, roots: set<nat>, id: nat, rest: seq<nat>, fetched: seq<nat>)
    requires Progress(plc, defs, roots, [id] + rest, fetched) && Has(defs, id)
    ensures Progress(plc, defs, roots, rest, fetched)
  {
    hide Reachable, Definition, Good, Child;
    assert forall c :: c in [id] + rest <==> c == id || c in rest;
  }

  /** Once an id has been fetched, its children are covered in its place. */
  lemma FetchKeepsCovered(plc: Plc, defs: Defs, roots: set<nat>, id: nat, rest: seq<nat>, queued: seq<nat>)
    requires |defs| == MAX_UDTS && id < MAX_UDTS && !Has(defs, id) && Good(plc, id)
    requires Covered(plc, defs, roots, [id] + rest)
    requires var defs' := defs[id := Some(Definition(plc, id))];
      forall c: nat :: Child(Definition(plc, id), c) && !Has(defs', c) ==> c in queued
    ensures Covered(plc, defs[id := Some(Definition(plc, id))], roots, rest + queued)
  {
    hide Definition, Good, Child;
    var defs' := defs[id := Some(Definition(plc, id))];
    forall x: nat | Has(defs, x)
      ensures Has(defs', x)
    {
    }
    assert Has(defs', id);
    assert forall c :: c in [id] + rest <==> c == id || c in rest;
    forall x: nat, c: nat | Has(defs', x) && Child(defs'[x].value, c)
      ensures Has(defs', c) || c in rest + queued
    {
      if x != id {
        assert Has(defs, x) && defs'[x] == defs[x];
      }
    }
  }

  lemma FetchKeepsWanted(plc: Plc, defs: Defs, roots: set<nat>, id: nat, rest: seq<nat>, queued: seq<nat>)
    requires |defs| == MAX_UDTS && id < MAX_UDTS && Good(plc, id) && Right(plc, defs)
    requires Wanted(plc, defs, roots, [id] + rest)
    requires forall c: nat :: c in queued ==> c < MAX_UDTS && Edge(plc, id, c)
    ensures Right(plc, defs[id := Some(Definition(plc, id))])
    ensures Wanted(plc, defs[id := Some(Definition(plc, id))], roots, rest + queued)
  {
    hide Definition, Good, Reachable, Edge;
    var defs' := defs[id := Some(Definition(plc, id))];
    assert id in [id] + rest;
    forall c | c in queued
      ensures Reachable(plc, roots, c)
    {
      ChildIsReachable(plc, roots, id, c);
    }
    assert forall c :: c in rest ==> c in [id] + rest;
    forall x: nat | Has(defs', x)
      ensures Good(plc, x) && defs'[x].value == Definition(plc, x) && Reachable(plc, roots, x)
    {
      if x != id {
        assert Has(defs, x);
      }
    }
  }

  lemma FetchKeepsFetchedOnce(plc: Plc, defs: Defs, id: nat, u: Udt, fetched: seq<nat>)
    requires |defs| == MAX_UDTS && id < MAX_UDTS && !Has(defs, id) && FetchedOnce(defs, fetched)
    ensures FetchedOnce(defs[id := Some(u)], fetched + [id])
  {
    var defs' := defs[id := Some(u)];
    forall x: nat
      ensures x in fetched + [id] <==> Has(defs', x)
    {
      assert x != id ==> (Has(defs', x) <==> Has(defs, x));
    }
  }

  lemma FetchKeepsProgress(plc: Plc, defs: Defs, roots: set<nat>, id: nat, rest: seq<nat>, fetched: seq<nat>)
    requires Progress(plc, defs, roots, [id] + rest, fetched) && !Has(defs, id) && id < MAX_UDTS && Good(plc, id)
    ensures Progress(plc, defs[id := Some(Definition(plc, id))], roots,
                     rest + Queued(Ids(defs) + {id}, Definition(plc, id).fields), fetched + [id])
  {
    var u := Definition(plc, id);
    var queued := Queued(Ids(defs) + {id}, u.fields);
    assert Ids(defs[id := Some(u)]) == Ids(defs) + {id};
    forall c: nat
      ensures c in queued <==> c !in Ids(defs) + {id} && Child(u, c)
    {
      QueuedIffMissing(Ids(defs) + {id}, u, c);
    }
    FetchKeepsCovered(plc, defs, roots, id, rest, queued);
    FetchKeepsWanted(plc, defs, roots, id, rest, queued);
    FetchKeepsFetchedOnce(plc, defs, id, u, fetched);
  }

  /** What the definitions fetched add to the queue, in the order they were fetched. */
  ghost function Growth(plc: Plc, fetched: seq<nat>): nat {
    if fetched == [] then 0 else
      var id := fetched[|fetched| - 1];
      Growth(plc, fetched[..|fetched| - 1])
      + if Good(plc, id) then |Queued(SetOf(fetched), Definition(plc, id).fields)| else 0
  }

  lemma GrowthStep(plc: Plc, defs: Defs, fetched: seq<nat>, id: nat)
    requires FetchedOnce(defs, fetched)
    ensures Growth(plc, fetched + [id]) == Growth(plc, fetched)
            + if Good(plc, id) then |Queued(Ids(defs) + {id}, Definition(plc, id).fields)| else 0
  {
    hide Queued, Definition, Good;
    assert (fetched + [id])[..|fetched|] == fetched;
    forall x: nat
      ensures x in SetOf(fetched + [id]) <==> x in Ids(defs) + {id}
    {
      assert x in fetched <==> Has(defs, x);
    }
    assert SetOf(fetched + [id]) == Ids(defs) + {id};
  }

  lemma UnsupportedIsNotGood(plc: Plc, id: nat)
    requires plc(id).Unsupported?
    ensures !Good(plc, id)
  {
  }

  /** The UDT that a tag's type calls for, if any. */
  function TypeRoots(elementType: nat): set<nat> {
    if WantsUdt(elementType) then {UdtId(elementType)} else {}
  }

  ghost function SetOf(s: seq<nat>): set<nat> {
    set x | x in s
  }

  /** With nothing defined, all that is still queued is a root. */
  lemma ClearedIsProgress(plc: Plc, pending: seq<nat>)
    requires forall id :: id in pending ==> id < MAX_UDTS
    ensures Progress(plc, seq(MAX_UDTS, _ => None), SetOf(pending), pending, [])
  {
    forall id | id in pending
      ensures Reachable(plc, SetOf(pending), id)
    {
      RootIsReachable(plc, SetOf(pending), id);
    }
  }

  lemma RootKeepsProgress(plc: Plc, defs: Defs, roots: set<nat>, pending: seq<nat>, fetched: seq<nat>, id: nat)
    requires Progress(plc, defs, roots, pending, fetched) && id < MAX_UDTS
    ensures Progress(plc, defs, roots + {id}, pending + [id], fetched)
  {
    RootIsReachable(plc, roots + {id}, id);
    forall x | Reachable(plc, roots, x)
      ensures Reachable(plc, roots + {id}, x)
    {
      var p :| Path(plc, p) && p != [] && p[0] in roots && p[|p| - 1] == x;
      assert p[0] in roots + {id};
    }
  }

  // ---- the code

  /** The part of get_udt_definition() that reads the names: ok is false where it ends the process. */
  method ReadNames(data: seq<Byte>, numFields: nat) returns (ok: bool)
    ensures ok <==> NamesReadable(data, numFields)
  {
    hide StringLength;
    var offset: nat := 14 + 8 * numFields;
    if offset > |data| {
      return false;
    }
    offset := offset + StringLength(data, offset) + 1;
    var index: nat := 0;
    ghost var goal := FieldNamesReadable(data, offset, numFields);
    while index < numFields && offset < |data|
      invariant index <= numFields && FieldNamesReadable(data, offset, numFields - index) == goal
    {
      var length := StringLength(data, offset);
      if length >= MAX_NAME {
        return false;
      }
      offset := offset + length + 1;
      index := index + 1;
    }
    ok := true;
  }

  /** What became of a call: the process ends where the source calls usage(). */
  datatype Outcome = Ok | NotSupported | Exited

  /** The static arrays and indices of list_tags.cpp; the queue is not bounded here. */
  class Cache {
    const udts: array<Option<Udt>>
    var toProcess: seq<nat>
    var current: nat
    ghost var fetched: seq<nat>

    ghost predicate Valid()
      reads this, udts
    {
      && udts.Length == MAX_UDTS
      && current <= |toProcess|
      && (forall i :: current <= i < |toProcess| ==> toProcess[i] < MAX_UDTS)
    }

    constructor ()
      ensures Valid() && fresh(udts)
      ensures udts[..] == seq(MAX_UDTS, _ => None) && toProcess == [] && fetched == []
    {
      udts := new Option<Udt>[MAX_UDTS](_ => None);
      toProcess, current, fetched := [], 0, [];
    }

    /** One field descriptor: keep it, and queue its UDT unless that is already defined. */
    method ReadField(id: nat, data: seq<Byte>, offset: nat) returns (next: nat)
      requires Valid() && id < MAX_UDTS && udts[id].Some?
      modifies this`toProcess, udts
      ensures Valid() && next == offset + 8
      ensures var f := Field(Get16(data, offset), Get16(data, offset + 2), Get32(data, offset + 4));
        && udts[..] == old(udts[..])[id := Some(old(udts[id].value).(fields := old(udts[id].value.fields) + [f]))]
        && toProcess == old(toProcess) + QueuedFor(old(Ids(udts[..])), f)
    {
      next := offset;
      var metadata := Get16(data, next);
      next := next + 2;
      var elementType := Get16(data, next);
      next := next + 2;
      var fieldOffset := Get32(data, next);
      next := next + 4;
      udts[id] := Some(udts[id].value.(fields := udts[id].value.fields + [Field(metadata, elementType, fieldOffset)]));
      if WantsUdt(elementType) {
        var child := UdtId(elementType);
        if udts[child].None? {
          toProcess := toProcess + [child];
        }
      }
    }

    /** The field loop. */
    method ReadFields(id: nat, data: seq<Byte>)
      requires Valid() && id < MAX_UDTS && udts[id] == Some(Decoded(id, data, 0))
      modifies this`toProcess, udts
      ensures Valid()
      ensures udts[..] == old(udts[..])[id := Some(Decoded(id, data, Get16(data, 10)))]
      ensures toProcess == old(toProcess) + Queued(old(Ids(udts[..])), Decoded(id, data, Get16(data, 10)).fields)
    {
      hide Queued, QueuedFor, Ids, Get16, Get32;
      var offset := 14;
      var index := 0;
      NothingQueued(Ids(udts[..]), id, data);
      while index < udts[id].value.numFields
        invariant Valid() && index <= Get16(data, 10) && offset == 14 + 8 * index
        invariant udts[..] == old(udts[..])[id := Some(Decoded(id, data, index))]
        invariant toProcess == old(toProcess) + Queued(old(Ids(udts[..])), Decoded(id, data, index).fields)
      {
        SameIds(old(udts[..]), id, Decoded(id, data, index));
        QueuedNext(old(Ids(udts[..])), id, data, index);
        offset := ReadField(id, data, offset);
        index := index + 1;
      }
    }

    /** Fetches the definition of id, unless it is there already. */
    method GetUdtDefinition(plc: Plc, id: nat) returns (rc: Outcome)
      requires Valid() && id < MAX_UDTS
      modifies this`toProcess, this`fetched, udts
      ensures rc != Exited ==> Valid()
      ensures old(udts[id].Some?) ==>
                rc == Ok && udts[..] == old(udts[..]) && toProcess == old(toProcess) && fetched == old(fetched)
      ensures old(udts[id].None?) ==> (rc == Ok <==> Good(plc, id)) && fetched == old(fetched) + [id]
      ensures old(udts[id].None?) && rc == Ok ==>
        && udts[..] == old(udts[..])[id := Some(Definition(plc, id))]
        && toProcess == old(toProcess) + Queued(old(Ids(udts[..])) + {id}, Definition(plc, id).fields)
      ensures rc == NotSupported <==> old(udts[id].None?) && plc(id).Unsupported?
      ensures rc == NotSupported ==> udts[..] == old(udts[..]) && toProcess == old(toProcess)
    {
      if udts[id].Some? { return Ok; }
      fetched := fetched + [id];
      var reply := plc(id);
      match reply {
        case Unsupported => return NotSupported;
        case Failed => return Exited;
        case Payload(data) =>
          var templateId := Get16(data, 0);
          var numMembers := Get16(data, 10);
          if templateId != id { return Exited; }
          udts[id] := Some(Udt(id, numMembers, Get16(data, 12), Get32(data, 6), []));
          assert Ids(udts[..]) == old(Ids(udts[..])) + {id};
          assert Decoded(id, data, 0).fields == [];
          ReadFields(id, data);
          var namesOk := ReadNames(data, numMembers);
          if !namesOk { return Exited; }
          return Ok;
      }
    }

    /**
     * The loop has met an id that the PLC cannot describe: it is still the next one, what was fetched before it is
     * kept, and everything queued is still pending.
     */
    ghost predicate Stopped(plc: Plc, roots: set<nat>)
      reads this, udts
    {
      && Valid() && current < |toProcess| && plc(toProcess[current]).Unsupported? && !Has(udts[..], toProcess[current])
      && fetched != [] && fetched[|fetched| - 1] == toProcess[current]
      && Progress(plc, udts[..], roots, toProcess[current..], fetched[..|fetched| - 1])
    }

    /** One turn of the worklist loop. */
    method ProcessNext(plc: Plc, ghost roots: set<nat>) returns (rc: Outcome)
      requires Valid() && Progress(plc, udts[..], roots, toProcess[current..], fetched) && current < |toProcess|
      modifies this, udts
      ensures rc == Ok ==> Valid() && Progress(plc, udts[..], roots, toProcess[current..], fetched)
      ensures rc == Ok && old(udts[toProcess[current]].Some?) ==>
                udts[..] == old(udts[..]) && toProcess == old(toProcess) && current == old(current) + 1
      ensures rc == Ok && old(udts[toProcess[current]].None?) ==>
                MissingIds(udts[..]) == old(MissingIds(udts[..])) - {old(toProcess[current])}
      ensures rc == NotSupported ==> Stopped(plc, roots)
      ensures rc != Ok ==> exists id :: Reachable(plc, roots, id) && !Good(plc, id)
      ensures rc != Exited ==>
                |toProcess| + Growth(plc, old(fetched)) == |old(toProcess)| + Growth(plc, fetched)
      ensures NoDuplicates(fetched)
    {
      hide Queued, Ids, Definition, Good, Reachable, Growth;
      var id := toProcess[current];
      ghost var defs, rest := udts[..], toProcess[current + 1..];
      assert toProcess[current..] == [id] + rest;
      assert id in toProcess[current..];
      assert Reachable(plc, roots, id);
      if udts[id].None? {
        assert !Has(defs, id);
        GrowthStep(plc, defs, fetched, id);
        rc := GetUdtDefinition(plc, id);
        if rc == NotSupported {
          assert fetched[..|fetched| - 1] == old(fetched);
          UnsupportedIsNotGood(plc, id);
          return;
        } else if rc != Ok {
          return;
        }
        FetchKeepsProgress(plc, defs, roots, id, rest, old(fetched));
        assert toProcess[current + 1..] == rest + Queued(Ids(defs) + {id}, Definition(plc, id).fields);
      } else {
        rc := Ok;
        assert Has(defs, id);
        SkipKeepsProgress(plc, defs, roots, id, rest, fetched);
      }
      current := current + 1;
    }

    /**
     * The loop over the worklist. The queue grows by what the fetched definitions add, and by nothing else: each id
     * is fetched once, so the slots needed are known from the tags and the definitions.
     */
    method Drain(plc: Plc, ghost roots: set<nat>) returns (rc: Outcome)
      requires Valid() && Progress(plc, udts[..], roots, toProcess[current..], fetched)
      modifies this, udts
      ensures rc == Ok <==> forall id :: Reachable(plc, roots, id) ==> Good(plc, id)
      ensures rc == Ok ==> Valid() && current == |toProcess| && Right(plc, udts[..])
      ensures rc == Ok ==> forall id: nat :: Has(udts[..], id) <==> Reachable(plc, roots, id)
      ensures rc == NotSupported ==> Stopped(plc, roots)
      ensures rc != Exited ==>
                |toProcess| + Growth(plc, old(fetched)) == |old(toProcess)| + Growth(plc, fetched)
      ensures NoDuplicates(fetched)
    {
      hide Reachable, Good, Progress, FetchedOnce, Growth, Stopped;
      KeptAndPending(plc, udts[..], roots, toProcess[current..], fetched);
      while current < |toProcess|
        invariant Valid() && Progress(plc, udts[..], roots, toProcess[current..], fetched) && NoDuplicates(fetched)
        invariant |toProcess| + Growth(plc, old(fetched)) == |old(toProcess)| + Growth(plc, fetched)
        decreases MissingIds(udts[..]), |toProcess| - current
      {
        rc := ProcessNext(plc, roots);
        if rc != Ok {
          return;
        }
      }
      rc := Ok;
      Drained(plc, udts[..], roots, toProcess[current..], fetched);
    }

    /** The loop that forgets all definitions; the queue and its indices stay as they are. */
    method Clear()
      requires Valid()
      modifies udts, this`fetched
      ensures Valid() && udts[..] == seq(MAX_UDTS, _ => None) && fetched == []
    {
      var index := 0;
      while index < MAX_UDTS
        invariant index <= MAX_UDTS && forall i :: 0 <= i < index ==> udts[i] == None
      {
        udts[index] := None;
        index := index + 1;
      }
      fetched := [];
    }

    /** A tag's element type: queue its UDT. ok is false when the queue is full, which ends the process. */
    method QueueTagType(plc: Plc, elementType: nat, ghost roots: set<nat>) returns (ok: bool)
      requires Valid() && Progress(plc, udts[..], roots, toProcess[current..], fetched)
      modifies this`toProcess
      ensures Valid() && Progress(plc, udts[..], roots + TypeRoots(elementType), toProcess[current..], fetched)
      ensures toProcess == old(toProcess) + if WantsUdt(elementType) then [UdtId(elementType)] else []
      ensures toProcess == old(toProcess) + if elementType / 0x8000 % 2 == 1 && elementType / 0x1000 % 2 == 0
                                            then [elementType % 0x1000] else []
      ensures ok <==> WantsUdt(elementType) ==> |toProcess| < MAX_UDTS
    {
      hide Progress;
      WantsUdtIff(elementType);
      if WantsUdt(elementType) {
        var id := UdtId(elementType);
        RootKeepsProgress(plc, udts[..], roots, toProcess[current..], fetched, id);
        assert toProcess[current..] + [id] == (toProcess + [id])[current..];
        toProcess := toProcess + [id];
        return |toProcess| < MAX_UDTS;
      }
      assert roots + TypeRoots(elementType) == roots;
      ok := true;
    }
  }
}
