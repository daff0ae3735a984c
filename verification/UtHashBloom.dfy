/** The optional Bloom filter of uthash.h: HASH_BLOOM_MAKE, HASH_BLOOM_ADD and HASH_BLOOM_TEST. */
module UtHashBloom {
  import opened Bits

  function BitMask(i: nat): bv8
    requires i < 8
  {
    1 << i
  }

  /** HASH_BLOOM_BITTEST. */
  predicate BitTest(bv: seq<bv8>, idx: nat)
    requires idx / 8 < |bv|
  {
    bv[idx / 8] & BitMask(idx % 8) != 0
  }

  /** The bit of the filter that stands for a hash value. */
  function BloomIndex(hashv: nat, nbits: nat): (idx: nat)
  {
    And(hashv, Pow2(nbits) - 1)
  }

  /** The bit of a hash value is set. */
  predicate Marked(bv: seq<bv8>, nbits: nat, hashv: nat) {
    var idx := BloomIndex(hashv, nbits);
    idx / 8 < |bv| && BitTest(bv, idx)
  }

  /** HASH_BLOOM_BYTELEN. */
  function ByteLen(nbits: nat): nat {
    Pow2(nbits) / 8 + (if Pow2(nbits) % 8 != 0 then 1 else 0)
  }

  /** A hash value is reduced to nbits bits, and the bytes just suffice for one bit each. */
  lemma IndexInFilter(hashv: nat, nbits: nat)
    ensures BloomIndex(hashv, nbits) == hashv % Pow2(nbits)
    ensures 8 * ByteLen(nbits) - 8 < Pow2(nbits) <= 8 * ByteLen(nbits)
    ensures BloomIndex(hashv, nbits) / 8 < ByteLen(nbits)
  {
    MaskIsModulo(hashv, nbits);
  }

  /** The bits of a byte, from the lowest. */
  lemma BitMasks()
    ensures BitMask(0) == 1 && BitMask(1) == 2 && BitMask(2) == 4 && BitMask(3) == 8
    ensures BitMask(4) == 16 && BitMask(5) == 32 && BitMask(6) == 64 && BitMask(7) == 128
  {
  }

  lemma SettingABit(x: bv8, i: nat, j: nat)
    requires i < 8 && j < 8
    ensures (x | BitMask(i)) & BitMask(j) != 0 <==> i == j || x & BitMask(j) != 0
  {
  }

  /** HASH_BLOOM_MAKE: a filter with every bit clear. */
  method MakeBloom(nbits: nat) returns (bv: array<bv8>)
    ensures fresh(bv) && bv.Length == ByteLen(nbits)
    ensures forall idx: nat :: idx / 8 < bv.Length ==> !BitTest(bv[..], idx)
  {
    bv := new bv8[ByteLen(nbits)](_ => 0);
  }

  /** HASH_BLOOM_ADD: exactly one bit of the filter becomes set, and none is cleared. */
  method BloomAdd(bv: array<bv8>, nbits: nat, hashv: nat)
    requires bv.Length == ByteLen(nbits)
    modifies bv
    ensures forall idx: nat :: idx / 8 < bv.Length ==>
              (BitTest(bv[..], idx) <==> idx == BloomIndex(hashv, nbits) || BitTest(old(bv[..]), idx))
    ensures Marked(bv[..], nbits, hashv)
    ensures forall v: nat {:trigger Marked(bv[..], nbits, v)} ::
              Marked(old(bv[..]), nbits, v) ==> Marked(bv[..], nbits, v)
  {
    IndexInFilter(hashv, nbits);
    var at := BloomIndex(hashv, nbits);
    bv[at / 8] := bv[at / 8] | BitMask(at % 8);
    forall idx: nat | idx / 8 < bv.Length
      ensures BitTest(bv[..], idx) <==> idx == at || BitTest(old(bv[..]), idx)
    {
      SettingABit(old(bv[at / 8]), at % 8, idx % 8);
    }
  }

  /** HASH_BLOOM_TEST. */
  method BloomTest(bv: array<bv8>, nbits: nat, hashv: nat) returns (maybe: bool)
    requires bv.Length == ByteLen(nbits)
    ensures maybe == Marked(bv[..], nbits, hashv)
  {
    IndexInFilter(hashv, nbits);
    var at := BloomIndex(hashv, nbits);
    maybe := bv[at / 8] & BitMask(at % 8) != 0;
  }
}
