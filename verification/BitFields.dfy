/** The record words as the source computes them, by shifts, masks and ors. Every field lies in bits of
    its own, so each or is a sum and each shift and mask reads one field back. */
module BitFields {

  // ---- The 64-bit record ----

  function Record(dest: bv64, tier: bv64, first: bv64, second: bv64): bv64 {
    (dest & 0xFFFF_FFFF) | ((tier & 3) << 32) | ((first & 0x7FFF) << 34) | ((second & 0x7FFF) << 49)
  }

  lemma RecordIsSum(dest: bv64, tier: bv64, first: bv64, second: bv64)
    requires dest < 0x1_0000_0000 && tier < 4 && first < 0x8000 && second < 0x8000
    ensures Record(dest, tier, first, second)
      == dest + tier * 0x1_0000_0000 + first * 0x4_0000_0000 + second * 0x2_0000_0000_0000
  {
  }

  lemma RecordReads(dest: bv64, tier: bv64, first: bv64, second: bv64)
    ensures var word := Record(dest, tier, first, second);
      && word & 0xFFFF_FFFF == dest & 0xFFFF_FFFF && (word >> 32) & 3 == tier & 3
      && (word >> 34) & 0x7FFF == first & 0x7FFF && (word >> 49) & 0x7FFF == second & 0x7FFF
  {
  }

  /** The weight shares the destination's 32 bits. */
  function WeightedRecord(dest: bv64, weight: bv64, tier: bv64, first: bv64, second: bv64): bv64 {
    (dest & 0xFF_FFFF) | ((weight & 0xFF) << 24) | ((tier & 3) << 32) | ((first & 0x7FFF) << 34)
    | ((second & 0x7FFF) << 49)
  }

  lemma WeightedIsSum(dest: bv64, weight: bv64, tier: bv64, first: bv64, second: bv64)
    requires dest < 0x100_0000 && weight < 0x100 && tier < 4 && first < 0x8000 && second < 0x8000
    ensures WeightedRecord(dest, weight, tier, first, second) == Record(dest + weight * 0x100_0000, tier, first, second)
  {
  }

  function SidecarWord(tier: bv32, first: bv32, second: bv32): bv32 {
    (tier & 3) | ((first & 0x7FFF) << 2) | ((second & 0x7FFF) << 17)
  }

  lemma SidecarIsSum(tier: bv32, first: bv32, second: bv32)
    requires tier < 4 && first < 0x8000 && second < 0x8000
    ensures SidecarWord(tier, first, second) == tier + first * 4 + second * 0x2_0000
  {
  }

  // ---- The compact record, with idBits and epochBits wide fields ----

  function Mask(bits: bv32): bv32
    requires bits < 32
  {
    (1 << bits) - 1
  }

  function Compact(dest: bv32, tier: bv32, first: bv32, second: bv32, idBits: bv32, epochBits: bv32): bv32
    requires idBits <= 28 && 1 <= epochBits <= 15 && idBits + 2 + 2 * epochBits <= 32
  {
    (dest & Mask(idBits)) | ((tier & 3) << idBits) | ((first & Mask(epochBits)) << (idBits + 2))
    | ((second & Mask(epochBits)) << (idBits + 2 + epochBits))
  }

  /** A field of the given width, put by an or at bit k of a word that lies below bit k, is added to it,
      and the result lies below bit j, where the field ends. */
  lemma FieldAdded(word: bv32, field: bv32, k: bv32, bits: bv32, next: bv32, j: bv32)
    requires bits < 32 && k < 32 && j == k + bits && word <= Mask(k) && field <= Mask(bits)
    requires next == word | (field << k)
    ensures next == word + (field << k) && (j < 32 ==> next <= Mask(j))
  {
  }

  /** The ors of the compact record, one after the other, add its fields up, at bits i, j and k. */
  lemma CompactIsSum(dest: bv32, tier: bv32, first: bv32, second: bv32, i: bv32, j: bv32, k: bv32, epochBits: bv32,
                     low: bv32, mid: bv32, word: bv32)
    requires i <= 28 && 1 <= epochBits <= 15 && j == i + 2 && k == j + epochBits && k + epochBits <= 32
    requires dest <= Mask(i) && tier <= Mask(2) && first <= Mask(epochBits) && second <= Mask(epochBits)
    requires low == dest | (tier << i) && mid == low | (first << j) && word == mid | (second << k)
    ensures low == dest + (tier << i) && mid == low + (first << j) && word == mid + (second << k)
  {
    FieldAdded(dest, tier, i, 2, low, j);
    FieldAdded(low, first, j, epochBits, mid, k);
    FieldAdded(mid, second, k, epochBits, word, k + epochBits);
  }

  /** A masked field fits. */
  lemma MaskedFits(field: bv32, bits: bv32)
    requires bits < 32
    ensures field & Mask(bits) <= Mask(bits)
  {
  }

  lemma CompactReads(dest: bv32, tier: bv32, first: bv32, second: bv32, idBits: bv32, epochBits: bv32)
    requires idBits <= 28 && 1 <= epochBits <= 15 && idBits + 2 + 2 * epochBits <= 32
    ensures var word := Compact(dest, tier, first, second, idBits, epochBits);
      && word & Mask(idBits) == dest & Mask(idBits) && (word >> idBits) & 3 == tier & 3
      && (word >> (idBits + 2)) & Mask(epochBits) == first & Mask(epochBits)
      && (word >> (idBits + 2 + epochBits)) & Mask(epochBits) == second & Mask(epochBits)
  {
  }
}
