/**
 * The tag listing of list_tags.cpp: the decoder of the PLC's tag records, which pushes one entry per record onto
 * the front of a linked list, and the walk that adds every program's own tags to the list it walks over.
 */
module TagListing {
  import opened Basics
  import opened Bits
  import opened PlcBytes

  const TAG_DIM_MASK: nat := 0x6000

  /** A record on the wire. */
  datatype Record = Record(instanceId: nat, symbolType: nat, elementLength: nat, dims: seq<nat>, name: seq<Byte>)

  predicate WellFormed(r: Record) {
    && r.instanceId < 0x1_0000_0000 && r.symbolType < 0x1_0000 && r.elementLength < 0x1_0000
    && |r.dims| == 3 && (forall i :: 0 <= i < 3 ==> r.dims[i] < 0x1_0000_0000)
    && |r.name| < 0x8000
  }

  function Encode(r: Record): seq<Byte>
    requires WellFormed(r)
  {
    Put32(r.instanceId) + Put16(r.symbolType) + Put16(r.elementLength)
    + Put32(r.dims[0]) + Put32(r.dims[1]) + Put32(r.dims[2]) + Put16(|r.name|) + r.name
  }

  function EncodeAll(rs: seq<Record>): seq<Byte>
    requires forall r :: r in rs ==> WellFormed(r)
  {
    if rs == [] then [] else Encode(rs[0]) + EncodeAll(rs[1..])
  }

  /** The length of the name of the record at offset, which C reads as a signed 16-bit number. */
  function NameLength(data: seq<Byte>, offset: nat): (n: int)
    ensures -0x8000 <= n < 0x8000
  {
    var count := Get16(data, offset + 20);
    if count < 0x8000 then count else count - 0x1_0000
  }

  /**
   * Can the record at offset be read to its end? A length of -1 passes: its buffer has no bytes, and none are copied.
   * Below that a buffer of more than four billion bytes is asked for, which is taken to fail.
   */
  predicate Complete(data: seq<Byte>, offset: nat) {
    offset + 22 <= |data| && NameLength(data, offset) >= -1 && offset + 22 + NameLength(data, offset) <= |data|
  }

  function End(data: seq<Byte>, offset: nat): (end: nat)
    requires Complete(data, offset)
    ensures offset < end <= |data|
  {
    offset + 22 + NameLength(data, offset)
  }

  function RecordAt(data: seq<Byte>, offset: nat): Record
    requires Complete(data, offset)
  {
    Record(Get32(data, offset), Get16(data, offset + 4), Get16(data, offset + 6),
           [Get32(data, offset + 8), Get32(data, offset + 12), Get32(data, offset + 16)],
           if NameLength(data, offset) < 0 then [] else data[offset + 22..End(data, offset)])
  }

  /** The signed reading of the length field: the number of its range that agrees with it modulo 2^16. */
  lemma NameLengthIsSigned(data: seq<Byte>, offset: nat)
    ensures -0x8000 <= NameLength(data, offset) < 0x8000
    ensures NameLength(data, offset) % 0x1_0000 == Get16(data, offset + 20)
  {
  }

  /** A length field with its top bit set: only 0xFFFF passes, and then the next record begins one byte early. */
  lemma NegativeLengths(data: seq<Byte>, offset: nat)
    requires offset + 22 <= |data| && Get16(data, offset + 20) >= 0x8000
    ensures Complete(data, offset) <==> Get16(data, offset + 20) == 0xFFFF
    ensures Complete(data, offset) ==> End(data, offset) == offset + 21 && RecordAt(data, offset).name == []
  {
  }

  /** The records found from offset on: as far as they are complete. */
  function Records(data: seq<Byte>, offset: nat): seq<Record>
    decreases |data| - offset
  {
    if offset < |data| && Complete(data, offset) then
      [RecordAt(data, offset)] + Records(data, End(data, offset))
    else
      []
  }

  // ---- encoding and decoding

  /** Where the fields of an encoded record lie. */
  lemma EncodedFields(r: Record)
    requires WellFormed(r)
    ensures var e := Encode(r);
      && |e| == 22 + |r.name| && e[0..4] == Put32(r.instanceId)
      && e[4..6] == Put16(r.symbolType) && e[6..8] == Put16(r.elementLength)
      && e[8..12] == Put32(r.dims[0]) && e[12..16] == Put32(r.dims[1]) && e[16..20] == Put32(r.dims[2])
      && e[20..22] == Put16(|r.name|) && e[22..] == r.name
  {
    hide Put16, Put32;
  }

  lemma RecordRoundTrip(data: seq<Byte>, offset: nat, r: Record)
    requires WellFormed(r) && offset + |Encode(r)| <= |data| && data[offset..offset + |Encode(r)|] == Encode(r)
    ensures Complete(data, offset) && RecordAt(data, offset) == r && End(data, offset) == offset + |Encode(r)|
    ensures offset < |data|
  {
    hide Encode, Get16, Get32, Put16, Put32;
    var e := Encode(r);
    EncodedFields(r);
    Slice32(data, offset, e, 0, r.instanceId);
    Slice16(data, offset, e, 4, r.symbolType);
    Slice16(data, offset, e, 6, r.elementLength);
    Slice32(data, offset, e, 8, r.dims[0]);
    Slice32(data, offset, e, 12, r.dims[1]);
    Slice32(data, offset, e, 16, r.dims[2]);
    Slice16(data, offset, e, 20, |r.name|);
    assert r.dims == [r.dims[0], r.dims[1], r.dims[2]];
    SliceOfSlice(data, offset, offset + |e|, 22, |e|);
    assert e[22..|e|] == e[22..];
  }

  /** Decoding what was encoded gives back every record, in order. */
  lemma {:induction false} RecordsRoundTrip(data: seq<Byte>, offset: nat, rs: seq<Record>)
    requires forall r :: r in rs ==> WellFormed(r)
    requires offset <= |data| && data[offset..] == EncodeAll(rs)
    ensures Records(data, offset) == rs
    decreases |rs|
  {
    hide Encode, Complete, RecordAt, End, WellFormed;
    if rs != [] {
      var e := Encode(rs[0]);
      HeadOfRest(data, offset, e, EncodeAll(rs[1..]));
      RecordRoundTrip(data, offset, rs[0]);
      RecordsRoundTrip(data, offset + |e|, rs[1..]);
    }
  }

  lemma HeadOfRest(data: seq<Byte>, offset: nat, head: seq<Byte>, rest: seq<Byte>)
    requires offset <= |data| && data[offset..] == head + rest
    ensures offset + |head| <= |data|
    ensures data[offset..offset + |head|] == head && data[offset + |head|..] == rest
  {
    assert data[offset..][..|head|] == head && data[offset..][|head|..] == rest;
  }

  // ---- the entries

  /** tag_entry_s */
  class TagEntry {
    var next: TagEntry?
    var name: seq<Byte>
    var parent: TagEntry?
    var instanceId: nat
    var elementType: nat
    var elemSize: nat
    var elemCount: nat
    var numDimensions: nat
    var dimensions: seq<nat>

    constructor (r: Record, parent: TagEntry?, next: TagEntry?, numDimensions: nat, dims: seq<nat>, elemCount: nat)
      ensures this.next == next && this.parent == parent && name == r.name
      ensures instanceId == r.instanceId % 0x1_0000 && elementType == r.symbolType && elemSize == r.elementLength
      ensures this.numDimensions == numDimensions && dimensions == dims && this.elemCount == elemCount
    {
      this.next, this.parent, name := next, parent, r.name;
      instanceId, elementType, elemSize := r.instanceId % 0x1_0000, r.symbolType, r.elementLength;
      this.numDimensions, dimensions, this.elemCount := numDimensions, dims, elemCount;
    }
  }

  function NumDimensions(symbolType: nat): nat {
    ShiftRight(And(symbolType, TAG_DIM_MASK), 13)
  }

  /** Bits 13 and 14 of a type hold its number of dimensions. */
  lemma DimensionsAreTwoBits(symbolType: nat)
    ensures NumDimensions(symbolType) == symbolType / 0x2000 % 4 <= 3
  {
    hide And, ShiftRight, Pow2;
    ShiftOfAnd(symbolType, TAG_DIM_MASK, 13);
    ShiftIsDivision(symbolType, 13);
    ShiftIsDivision(TAG_DIM_MASK, 13);
    PowerThirteen();
    MaskIsModulo(symbolType / 0x2000, 2);
  }

  lemma PowerThirteen()
    ensures Pow2(13) == 0x2000 && Pow2(2) == 4
  {
    assert Pow2(5) == 32;
    assert Pow2(9) == 512;
  }

  function Product(s: seq<nat>): nat {
    if s == [] then 1 else Product(s[..|s| - 1]) * s[|s| - 1]
  }

  /** The element counts of a scalar and of arrays of one, two and three dimensions, before truncation. */
  lemma ElementCounts(dims: seq<nat>)
    requires |dims| == 3
    ensures Product(dims[..0]) == 1 && Product(dims[..1]) == dims[0]
    ensures Product(dims[..2]) == dims[0] * dims[1] && Product(dims[..3]) == dims[0] * dims[1] * dims[2]
  {
    assert dims[..1][..0] == dims[..0] && dims[..2][..1] == dims[..1] && dims[..3][..2] == dims[..2];
  }

  lemma ProductModulo(a: nat, b: nat, m: nat)
    requires m >= 1
    ensures ((a % m) * b) % m == (a * b) % m
  {
    var q, r := a / m, a % m;
    var t, u := r * b / m, r * b % m;
    DivMod(a, m);
    DivMod(r * b, m);
    RegroupProduct(q, m, r, b, t, u);
    DivModUnique(a * b, m, q * b + t, u);
  }

  lemma RegroupProduct(q: nat, m: nat, r: nat, b: nat, t: nat, u: nat)
    requires r * b == t * m + u
    ensures (q * m + r) * b == (q * b + t) * m + u
  {
    assert (q * m + r) * b == q * m * b + r * b;
    assert (q * b + t) * m == q * b * m + t * m;
    assert q * m * b == q * b * m;
  }

  /** The entry e shows the record r. */
  ghost predicate Shows(e: TagEntry, r: Record, parent: TagEntry?)
    reads e
  {
    && e.name == r.name && e.parent == parent
    && e.instanceId == r.instanceId % 0x1_0000 && e.elementType == r.symbolType && e.elemSize == r.elementLength
    && e.numDimensions == NumDimensions(r.symbolType)
    && |e.dimensions| == 3 == |r.dims| && (forall i :: 0 <= i < 3 ==> e.dimensions[i] == r.dims[i] % 0x1_0000)
    && e.numDimensions <= 3 && e.elemCount == Product(e.dimensions[..e.numDimensions]) % 0x1_0000
  }

  /** The list that starts at head consists of the entries s. */
  ghost predicate Linked(head: TagEntry?, s: seq<TagEntry>)
    reads s
  {
    && head == (if s == [] then null else s[0])
    && forall i {:trigger s[i].next} :: 0 <= i < |s| ==> s[i].next == if i + 1 < |s| then s[i + 1] else null
  }

  /** No entry is on the list twice. */
  lemma {:induction false} LinkedIsDistinct(head: TagEntry?, s: seq<TagEntry>, i: nat, j: nat)
    requires Linked(head, s) && i < j < |s|
    ensures s[i] != s[j]
    decreases |s| - j
  {
    assert s[i].next == s[i + 1];
    if j + 1 < |s| {
      LinkedIsDistinct(head, s, i + 1, j + 1);
      assert s[j].next == s[j + 1];
    } else {
      assert s[j].next == null;
    }
  }

  /** What was pushed onto the list is none of what was there. */
  lemma PushedAreNew(head: TagEntry?, added: seq<TagEntry>, s: seq<TagEntry>)
    requires Linked(head, added + s)
    ensures forall e :: e in added ==> e !in s
  {
    forall i, j | 0 <= i < |added| && 0 <= j < |s|
      ensures added[i] != s[j]
    {
      LinkedIsDistinct(head, added + s, i, |added| + j);
    }
  }

  /** The entries added show the records, the last one first. */
  ghost predicate ShowReversed(added: seq<TagEntry>, rs: seq<Record>, parent: TagEntry?)
    reads added
  {
    |added| == |rs| && forall i {:trigger added[i]} :: 0 <= i < |added| ==> Shows(added[i], rs[|rs| - 1 - i], parent)
  }

  lemma ShowNone(parent: TagEntry?)
    ensures ShowReversed([], [], parent)
  {
  }

  lemma ShowOneMore(added: seq<TagEntry>, rs: seq<Record>, parent: TagEntry?, e: TagEntry, r: Record)
    requires ShowReversed(added, rs, parent) && Shows(e, r, parent)
    ensures ShowReversed([e] + added, rs + [r], parent)
  {
    hide Shows;
  }

  lemma RecordsUnfold(data: seq<Byte>, offset: nat)
    requires offset < |data|
    ensures Records(data, offset)
         == if Complete(data, offset) then [RecordAt(data, offset)] + Records(data, End(data, offset)) else []
  {
  }

  lemma RecordsEnd(data: seq<Byte>, offset: nat)
    requires offset >= |data|
    ensures Records(data, offset) == []
  {
  }

  // ---- the decoder

  method CountElements(dims: seq<nat>, n: nat) returns (count: nat)
    requires n <= |dims|
    ensures count == Product(dims[..n]) % 0x1_0000
  {
    count := 1;
    var i := 0;
    while i < n
      invariant i <= n && count == Product(dims[..i]) % 0x1_0000
    {
      assert dims[..i + 1][..i] == dims[..i];
      ProductModulo(Product(dims[..i]), dims[i], 0x1_0000);
      count := count * dims[i] % 0x1_0000;
      i := i + 1;
    }
  }

  /** process_tag_entry(): ok is false where the source returns an error. */
  method ProcessTagEntry(data: seq<Byte>, offset: nat, head: TagEntry?, parent: TagEntry?, ghost s: seq<TagEntry>)
      returns (ok: bool, next: nat, newHead: TagEntry?)
    requires Linked(head, s)
    ensures ok <==> Complete(data, offset)
    ensures !ok ==> newHead == head
    ensures ok ==> offset < next == End(data, offset) && newHead != null && fresh(newHead)
    ensures ok ==> Linked(newHead, [newHead] + s) && Shows(newHead, RecordAt(data, offset), parent)
  {
    hide NameLength, Get16, Get32, NumDimensions, Product;
    next, newHead := offset, head;
    var lastTagId := Get32(data, next);
    next := next + 4;
    var tagType := Get16(data, next);
    next := next + 2;
    var elementLength := Get16(data, next);
    next := next + 2;
    var wide := [Get32(data, next), Get32(data, next + 4), Get32(data, next + 8)];
    next := next + 12;
    var nameLength := NameLength(data, offset);
    if nameLength < -1 || next + 2 > |data| || next + 2 + nameLength > |data| {
      return false, next, head;
    }
    var name := if nameLength < 0 then [] else data[next + 2..next + 2 + nameLength];
    next := next + 2 + nameLength;

    DimensionsAreTwoBits(tagType);
    var dims := [wide[0] % 0x1_0000, wide[1] % 0x1_0000, wide[2] % 0x1_0000];
    var elemCount := CountElements(dims, NumDimensions(tagType));
    newHead := new TagEntry(Record(lastTagId, tagType, elementLength, wide, name), parent, head,
                            NumDimensions(tagType), dims, elemCount);
    ok := true;
  }

  /** get_tag_list(), given the data that was read: pushes one entry for each record. */
  method GetTagList(data: seq<Byte>, head: TagEntry?, parent: TagEntry?, ghost s: seq<TagEntry>)
      returns (newHead: TagEntry?, ghost added: seq<TagEntry>)
    requires |data| >= 4 && Linked(head, s)
    ensures Linked(newHead, added + s) && ShowReversed(added, Records(data, 0), parent)
    ensures forall e :: e in added ==> fresh(e)
  {
    hide *;
    newHead, added := head, [];
    var offset, ok := 0, true;
    ghost var list: seq<TagEntry> := s;
    ghost var done, rest: seq<Record> := [], Records(data, 0);
    ShowNone(parent);
    assert added + s == s;
    while ok && offset < |data|
      invariant Linked(newHead, list) && list == added + s
      invariant forall e :: e in added ==> fresh(e)
      invariant ShowReversed(added, done, parent) && done + rest == Records(data, 0)
      invariant rest == if ok && offset < |data| then Records(data, offset) else []
      decreases ok, |data| - offset
    {
      RecordsUnfold(data, offset);
      var next: nat;
      ok, next, newHead := ProcessTagEntry(data, offset, newHead, parent, list);
      if ok {
        ghost var r := RecordAt(data, offset);
        ghost var e: TagEntry := newHead;
        ShowOneMore(added, done, parent, e, r);
        Regroup(done, r, Records(data, next));
        Rejoin([e], added, s);
        done, rest := done + [r], Records(data, next);
        list, added := [e] + list, [e] + added;
        offset := next;
        if offset >= |data| { RecordsEnd(data, offset); }
      } else {
        rest := [];
      }
    }
    assert done + [] == done;
  }

  // ---- the walk over the programs

  /** The bytes of "Program:" and ".@tags". */
  const PROGRAM_PREFIX: seq<Byte> := [0x50, 0x72, 0x6F, 0x67, 0x72, 0x61, 0x6D, 0x3A]
  const TAGS_SUFFIX: seq<Byte> := [0x2E, 0x40, 0x74, 0x61, 0x67, 0x73]

  predicate IsProgram(name: seq<Byte>) {
    PROGRAM_PREFIX <= name
  }

  /** A name as C code sees it: up to its first zero byte. */
  function CString(name: seq<Byte>): seq<Byte> {
    if name == [] || name[0] == 0 then [] else [name[0]] + CString(name[1..])
  }

  /** The tag name asked for, cut to fit the buffer of 256 bytes with its terminator. */
  function Request(name: seq<Byte>): seq<Byte> {
    var full := CString(name) + TAGS_SUFFIX;
    if |full| > 255 then full[..255] else full
  }

  /** The part of a name before its first zero byte. */
  lemma {:induction false} CStringIsPrefix(name: seq<Byte>)
    ensures CString(name) <= name && 0 !in CString(name)
    ensures |CString(name)| < |name| ==> name[|CString(name)|] == 0
  {
    if name != [] && name[0] != 0 {
      CStringIsPrefix(name[1..]);
      assert name == [name[0]] + name[1..];
    }
  }

  lemma CStringOfText(name: seq<Byte>)
    requires 0 !in name
    ensures CString(name) == name
  {
    CStringIsPrefix(name);
  }

  /** The request is "<name>.@tags" as far as it fits into 255 bytes: whole exactly for at most 249 bytes of name. */
  lemma RequestIsNameAndSuffix(name: seq<Byte>)
    requires 0 !in name
    ensures Request(name) <= name + TAGS_SUFFIX
    ensures Request(name) == name + TAGS_SUFFIX <==> |name| <= 249
    ensures |name| > 249 ==> |Request(name)| == 255
  {
    hide CString;
    CStringOfText(name);
  }

  lemma RequestEndsAtZero(name: seq<Byte>)
    ensures Request(name) == Request(CString(name))
  {
    hide CString;
    CStringIsPrefix(name);
    CStringOfText(CString(name));
  }

  lemma ProgramText()
    ensures |PROGRAM_PREFIX| == |"Program:"| && forall i :: 0 <= i < 8 ==> PROGRAM_PREFIX[i] == "Program:"[i] as int
    ensures |TAGS_SUFFIX| == |".@tags"| && forall i :: 0 <= i < 6 ==> TAGS_SUFFIX[i] == ".@tags"[i] as int
  {
  }

  /** The PLC's answer to a listing request, None if it cannot be opened or read. */
  datatype Answer = Unreadable | Data(data: seq<Byte>)
  type Lister = seq<Byte> -> Answer

  /** An answer that get_tag_list() accepts. */
  predicate Usable(a: Answer) {
    a.Data? && |a.data| >= 4
  }

  /** A listing made of well-formed records is accepted and decoded to just these records. */
  lemma EncodedListing(rs: seq<Record>)
    requires rs != [] && forall r :: r in rs ==> WellFormed(r)
    ensures Usable(Data(EncodeAll(rs))) && Records(EncodeAll(rs), 0) == rs
  {
    var data := EncodeAll(rs);
    assert data[0..] == data;
    RecordsRoundTrip(data, 0, rs);
    assert |data| >= |Encode(rs[0])| >= 22;
  }

  /** The records that an entry called name adds to the list. */
  function ProgramRecords(lister: Lister, name: seq<Byte>): seq<Record> {
    if IsProgram(name) && Usable(lister(Request(name))) then Records(lister(Request(name)).data, 0) else []
  }

  /** The requests made for the first n entries. */
  ghost function Requests(s: seq<TagEntry>, n: nat): seq<seq<Byte>>
    requires n <= |s|
    reads s
  {
    if n == 0 then []
    else Requests(s, n - 1) + if IsProgram(s[n - 1].name) then [Request(s[n - 1].name)] else []
  }

  /** The first n entries of s added these entries: each program its records, with itself as parent. */
  ghost predicate AddedBy(lister: Lister, s: seq<TagEntry>, n: nat, added: seq<TagEntry>)
    requires n <= |s|
    reads s, added
    decreases n
  {
    if n == 0 then added == []
    else
      var rs := ProgramRecords(lister, s[n - 1].name);
      && |rs| <= |added|
      && ShowReversed(added[..|rs|], rs, s[n - 1])
      && AddedBy(lister, s, n - 1, added[|rs|..])
  }

  /** No program on the way, or one that can be listed. */
  predicate Listable(lister: Lister, name: seq<Byte>) {
    IsProgram(name) ==> Usable(lister(Request(name)))
  }

  ghost predicate AllListable(lister: Lister, s: seq<TagEntry>, n: nat)
    requires n <= |s|
    reads s
  {
    forall i {:trigger s[i]} :: 0 <= i < n ==> Listable(lister, s[i].name)
  }

  lemma NextOf(head: TagEntry?, s: seq<TagEntry>, i: nat)
    requires Linked(head, s) && i < |s|
    ensures s[i].next == if i + 1 < |s| then s[i + 1] else null
  {
  }

  lemma OneMoreListable(lister: Lister, s: seq<TagEntry>, n: nat)
    requires n < |s| && AllListable(lister, s, n)
    ensures AllListable(lister, s, n + 1) <==> Listable(lister, s[n].name)
    ensures !Listable(lister, s[n].name) ==> !AllListable(lister, s, |s|)
  {
  }

  lemma AddedByOneMore(lister: Lister, s: seq<TagEntry>, n: nat, added: seq<TagEntry>, more: seq<TagEntry>)
    requires n < |s| && AddedBy(lister, s, n, added)
    requires ShowReversed(more, ProgramRecords(lister, s[n].name), s[n])
    ensures AddedBy(lister, s, n + 1, more + added)
  {
    assert (more + added)[..|more|] == more && (more + added)[|more|..] == added;
  }

  /** How far the walk has come after n entries. */
  ghost predicate Walked(lister: Lister, s: seq<TagEntry>, n: nat, visited: seq<TagEntry>, asked: seq<seq<Byte>>,
                         list: seq<TagEntry>, added: seq<TagEntry>)
    reads s, added
  {
    && n <= |s| && visited == s[..n] && asked == Requests(s, n) && AllListable(lister, s, n)
    && list == added + s && AddedBy(lister, s, n, added)
  }

  lemma WalkedOneMore(lister: Lister, s: seq<TagEntry>, n: nat, visited: seq<TagEntry>, asked: seq<seq<Byte>>,
                      list: seq<TagEntry>, added: seq<TagEntry>, more: seq<TagEntry>)
    requires n < |s| && Walked(lister, s, n, visited, asked, list, added) && Listable(lister, s[n].name)
    requires ShowReversed(more, ProgramRecords(lister, s[n].name), s[n])
    ensures Walked(lister, s, n + 1, visited + [s[n]], asked + if IsProgram(s[n].name) then [Request(s[n].name)] else [],
                   more + list, more + added)
  {
    OneMoreListable(lister, s, n);
    AddedByOneMore(lister, s, n, added, more);
    Rejoin(more, added, s);
  }

  lemma WalkBegins(lister: Lister, head: TagEntry?, s: seq<TagEntry>)
    requires Linked(head, s)
    ensures Walked(lister, s, 0, [], [], s, [])
    ensures head == if s == [] then null else s[0]
  {
  }

  lemma WalkEnds(lister: Lister, s: seq<TagEntry>, n: nat, visited: seq<TagEntry>, asked: seq<seq<Byte>>,
                 list: seq<TagEntry>, added: seq<TagEntry>)
    requires Walked(lister, s, n, visited, asked, list, added)
    ensures n == |s| ==> visited == s && asked == Requests(s, |s|) && list == added + s
                         && AddedBy(lister, s, |s|, added) && AllListable(lister, s, |s|)
    ensures n < |s| && !Listable(lister, s[n].name) ==> !AllListable(lister, s, |s|)
  {
  }

  /** One turn of the walk: entry is s[i], the list is added + s. */
  method ListProgram(lister: Lister, entry: TagEntry, head: TagEntry?, ghost list: seq<TagEntry>)
      returns (ok: bool, newHead: TagEntry?, asked: seq<seq<Byte>>, ghost more: seq<TagEntry>)
    requires Linked(head, list)
    ensures asked == if IsProgram(entry.name) then [Request(entry.name)] else []
    ensures ok <==> Listable(lister, entry.name)
    ensures ok ==> Linked(newHead, more + list) && ShowReversed(more, ProgramRecords(lister, entry.name), entry)
    ensures forall e :: e in more ==> fresh(e)
  {
    newHead, more, asked := head, [], [];
    assert more + list == list;
    if !IsProgram(entry.name) {
      return true, head, [], [];
    }
    asked := [Request(entry.name)];
    var answer := lister(Request(entry.name));
    if !Usable(answer) {
      return false, head, asked, [];
    }
    newHead, more := GetTagList(answer.data, head, entry, list);
    ok := true;
  }

  /** One turn of the walk: entry is s[n]. */
  method VisitEntry(lister: Lister, entry: TagEntry, head: TagEntry?, asked: seq<seq<Byte>>, ghost s: seq<TagEntry>,
                    ghost n: nat, ghost visited: seq<TagEntry>, ghost list: seq<TagEntry>, ghost added: seq<TagEntry>)
      returns (ok: bool, newHead: TagEntry?, nowAsked: seq<seq<Byte>>, ghost nowVisited: seq<TagEntry>,
               ghost newList: seq<TagEntry>, ghost nowAdded: seq<TagEntry>)
    requires n < |s| && entry == s[n] && Walked(lister, s, n, visited, asked, list, added) && Linked(head, list)
    ensures ok <==> Listable(lister, s[n].name)
    ensures ok ==> Walked(lister, s, n + 1, nowVisited, nowAsked, newList, nowAdded) && Linked(newHead, newList)
  {
    hide *;
    ghost var more: seq<TagEntry>;
    var request: seq<seq<Byte>>;
    ok, newHead, request, more := ListProgram(lister, entry, head, list);
    nowAsked := asked + request;
    nowVisited, newList, nowAdded := visited + [s[n]], more + list, more + added;
    if ok {
      WalkedOneMore(lister, s, n, visited, asked, list, added, more);
    }
  }

  /**
   * The loop over the programs: every entry that was on the list at the start is visited once, in order, no entry
   * pushed meanwhile is, and each program is asked for once. ok is false where the source calls usage().
   */
  method WalkPrograms(lister: Lister, head: TagEntry?, ghost s: seq<TagEntry>)
      returns (ok: bool, newHead: TagEntry?, asked: seq<seq<Byte>>, ghost visited: seq<TagEntry>, ghost added: seq<TagEntry>)
    requires Linked(head, s)
    ensures ok <==> AllListable(lister, s, |s|)
    ensures ok ==> visited == s && asked == Requests(s, |s|) && forall e :: e in added ==> e !in visited
    ensures ok ==> Linked(newHead, added + s) && AddedBy(lister, s, |s|, added)
  {
    hide *;
    newHead, asked, visited, added := head, [], [], [];
    var entry := head;
    ghost var n, list: seq<TagEntry> := 0, s;
    WalkBegins(lister, head, s);
    while entry != null
      invariant n <= |s| && entry == if n < |s| then s[n] else null
      invariant Walked(lister, s, n, visited, asked, list, added) && Linked(newHead, list)
      decreases |s| - n
    {
      NextOf(head, s, n);
      ghost var before := (visited, list, added);
      var request := asked;
      ok, newHead, asked, visited, list, added :=
        VisitEntry(lister, entry, newHead, asked, s, n, visited, list, added);
      if !ok {
        WalkEnds(lister, s, n, before.0, request, before.1, before.2);
        return;
      }
      entry, n := entry.next, n + 1;
    }
    WalkEnds(lister, s, n, visited, asked, list, added);
    PushedAreNew(newHead, added, s);
    ok := true;
  }
}
