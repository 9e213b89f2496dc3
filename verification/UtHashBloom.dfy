/** The Bloom filter of a uthash table: one bit per masked hash value, set on addition and never cleared. */
module UtHashBloom {
  import opened Bits

  /** `1U << i` for a bit position within a byte. */
  function Mask(i: nat): bv8
    requires i < 8
  {
    if i == 0 then 1 else if i == 1 then 2 else if i == 2 then 4 else if i == 3 then 8
    else if i == 4 then 16 else if i == 5 then 32 else if i == 6 then 64 else 128
  }

  function ByteLen(nbits: nat): nat {
    Pow2(nbits) / 8 + if Pow2(nbits) % 8 != 0 then 1 else 0
  }

  function Index(hashv: nat, nbits: nat): nat {
    And(hashv, Pow2(nbits) - 1)
  }

  lemma IndexInRange(hashv: nat, nbits: nat)
    ensures Index(hashv, nbits) < Pow2(nbits) && Index(hashv, nbits) / 8 < ByteLen(nbits)
  {
    AndMaskIsMod(hashv, nbits);
  }

  ghost predicate IsSet(bv: seq<bv8>, idx: nat)
    requires idx / 8 < |bv|
  {
    bv[idx / 8] & Mask(idx % 8) != 0
  }

  /** Setting bit `i` of a byte sets that bit and changes no other. */
  lemma SetOneBit(a: bv8, i: nat, j: nat)
    requires i < 8 && j < 8
    ensures (a | Mask(i)) & Mask(j) != 0 <==> a & Mask(j) != 0 || i == j
  {
  }

  method BitSet(bv: array<bv8>, idx: nat)
    requires idx / 8 < bv.Length
    modifies bv
    ensures forall j: nat | j / 8 < bv.Length :: IsSet(bv[..], j) <==> old(IsSet(bv[..], j)) || j == idx
  {
    bv[idx / 8] := bv[idx / 8] | Mask(idx % 8);
    forall j: nat | j / 8 < bv.Length ensures IsSet(bv[..], j) <==> old(IsSet(bv[..], j)) || j == idx {
      SetOneBit(old(bv[idx / 8]), idx % 8, j % 8);
    }
  }

  method BitTest(bv: array<bv8>, idx: nat) returns (r: bool)
    requires idx / 8 < bv.Length
    ensures r <==> IsSet(bv[..], idx)
  {
    r := bv[idx / 8] & Mask(idx % 8) != 0;
  }
}
