/** The record layouts of reuse plans. Fields occupy disjoint bits, so words are written as sums of
    fields times powers of two; a mask is a remainder and a shift right is a quotient. */
module WireFormat {
  import opened Arithmetic

  // The 64-bit record has 32-bit destinations and 15-bit epochs.
  const IDS: Size := UINT32_LIMIT
  const EPOCHS: Size := 32768

  /** low + high * p: a field of size p and what lies above it. The recursion keeps products of two
      variables out of every proof about fields; AboveIs is its value. */
  function Above(low: nat, high: nat, p: nat): nat
    decreases high
  {
    if high == 0 then low else p + Above(low, high - 1, p)
  }

  lemma {:induction false} AboveIs(low: nat, high: nat, p: nat)
    ensures Above(low, high, p) == low + high * p
    decreases high
  {
    if high > 0 {
      AboveIs(low, high - 1, p);
    }
  }

  lemma SplitAbove(low: nat, high: nat, p: nat)
    requires p > 0 && low < p
    ensures Above(low, high, p) / p == high && Above(low, high, p) % p == low
  {
    AboveIs(low, high, p);
    QuotientRemainder(low, high, p);
  }

  lemma AboveBound(low: nat, high: nat, p: nat, q: nat)
    requires low < p && high < q
    ensures Above(low, high, p) < p * q
  {
    AboveIs(low, high, p);
    TimesMonotone(p, high + 1, q);
  }

  lemma RemainderSmall(x: nat, p: nat)
    requires x < p
    ensures x % p == x
  {
  }

  // ---- The common layout: dest | tier[2] | first | second, with ids destinations and epochs epochs ----

  function Pack(dest: nat, tier: nat, first: nat, second: nat, ids: Size, epochs: Size): nat {
    Above(dest % ids, Above(tier % 4, Plans(first, second, epochs), 4), ids)
  }

  function Plans(first: nat, second: nat, epochs: Size): nat {
    Above(first % epochs, second % epochs, epochs)
  }

  // Shifting right over several fields is shifting over each in turn.

  function Dest(word: nat, ids: Size): (d: nat)
    ensures d < ids
  {
    word % ids
  }

  function Tier(word: nat, ids: Size): (t: nat)
    ensures t < 4
  {
    word / ids % 4
  }

  function First(word: nat, ids: Size, epochs: Size): (e: nat)
    ensures e < epochs
  {
    word / ids / 4 % epochs
  }

  function Second(word: nat, ids: Size, epochs: Size): (e: nat)
    ensures e < epochs
  {
    word / ids / 4 / epochs % epochs
  }

  lemma ModBound(x: nat, p: nat)
    requires p > 0
    ensures x % p < p && x % p % p == x % p
  {
    RemainderSmall(x % p, p);
  }

  /** Every field of a packed word reads back, truncated to its width. */
  lemma PackFields(dest: nat, tier: nat, first: nat, second: nat, ids: Size, epochs: Size)
    ensures var word := Pack(dest, tier, first, second, ids, epochs);
      && Dest(word, ids) == dest % ids && Tier(word, ids) == tier % 4
      && First(word, ids, epochs) == first % epochs && Second(word, ids, epochs) == second % epochs
  {
    var d, t, f, s := dest % ids, tier % 4, first % epochs, second % epochs;
    ModBound(dest, ids);
    ModBound(first, epochs);
    ModBound(second, epochs);
    SplitAbove(d, Above(t, Above(f, s, epochs), 4), ids);
    SplitAbove(t, Above(f, s, epochs), 4);
    SplitAbove(f, s, epochs);
  }

  /** A packed word stays within the product of its fields' sizes. */
  lemma PackFits(dest: nat, tier: nat, first: nat, second: nat, ids: Size, epochs: Size)
    ensures Pack(dest, tier, first, second, ids, epochs) < ids * (4 * (epochs * epochs))
  {
    ModBound(dest, ids);
    ModBound(first, epochs);
    ModBound(second, epochs);
    AboveBound(first % epochs, second % epochs, epochs, epochs);
    AboveBound(tier % 4, Plans(first, second, epochs), 4, epochs * epochs);
    AboveBound(dest % ids, Above(tier % 4, Plans(first, second, epochs), 4), ids, 4 * (epochs * epochs));
  }

  // ---- The 64-bit record and the sidecar ----

  function PackRecord(dest: nat, tier: nat, first: nat, second: nat): nat {
    Pack(dest, tier, first, second, IDS, EPOCHS)
  }

  /** packWeightedReusePlanSidecar: the record without its destination. */
  function PackSidecar(tier: nat, first: nat, second: nat): nat { Above(tier % 4, Plans(first, second, EPOCHS), 4) }

  function Combine(dest: nat, sidecar: nat): nat { Above(dest % IDS, sidecar, IDS) }

  /** The fields of a record survive the detour through a sidecar and its destination. */
  lemma SidecarRecombines(dest: nat, tier: nat, first: nat, second: nat)
    ensures var word := PackRecord(dest, tier, first, second);
      Combine(Dest(word, IDS), PackSidecar(Tier(word, IDS), First(word, IDS, EPOCHS), Second(word, IDS, EPOCHS)))
        == word
  {
    PackFields(dest, tier, first, second, IDS, EPOCHS);
    ModBound(dest, IDS);
    ModBound(tier, 4);
    ModBound(first, EPOCHS);
    ModBound(second, EPOCHS);
  }

  // ---- The compact 32-bit record ----

  /** The least width from 1 that covers `values`, but at most `limit`. */
  ghost predicate IsWidth(bits: nat, values: nat, limit: nat) {
    && 1 <= bits <= limit
    && (bits < limit ==> values <= Pow2(bits))
    && (bits > 1 ==> Pow2(bits - 1) < values)
  }

  function LeastWidth(values: nat, limit: nat): (bits: nat)
    requires limit >= 1
    ensures IsWidth(bits, values, limit)
    decreases limit
  {
    if limit == 1 then 1 else
      var bits := LeastWidth(values, limit - 1);
      if bits == limit - 1 && Pow2(bits) < values then limit else bits
  }

  lemma WidthUnique(a: nat, b: nat, values: nat, limit: nat)
    requires IsWidth(a, values, limit) && IsWidth(b, values, limit)
    ensures a == b
  {
    if a < b {
      Pow2Monotone(a, b - 1);
    } else if b < a {
      Pow2Monotone(b, a - 1);
    }
  }

  /** The loops of reusePlan32IdBits (limit 32) and reusePlan32EpochBits (limit 16). */
  method Width(values: nat, limit: nat) returns (bits: nat)
    requires limit >= 1
    ensures IsWidth(bits, values, limit)
  {
    bits := 1;
    while bits < limit && Pow2(bits) < values
      invariant 1 <= bits <= limit && (bits > 1 ==> Pow2(bits - 1) < values)
    {
      bits := bits + 1;
    }
  }

  method CanPack(numVertices: nat, ne: nat) returns (fits: bool, idBits: nat, epochBits: nat)
    ensures IsWidth(idBits, numVertices, 32) && IsWidth(epochBits, ne, 16)
    ensures fits <==> idBits + 2 + 2 * epochBits <= 32
  {
    idBits := Width(numVertices, 32);
    epochBits := Width(ne, 16);
    fits := idBits + 2 + 2 * epochBits <= 32;
  }

  function Widen(word: nat, ids: Size, epochs: Size): nat {
    PackRecord(Dest(word, ids), Tier(word, ids), First(word, ids, epochs), Second(word, ids, epochs))
  }

  lemma WidthCovers(bits: nat, values: nat, limit: nat, x: nat)
    requires IsWidth(bits, values, limit) && bits < limit && x < values
    ensures x < Pow2(bits) && x % Pow2(bits) == x
  {
    RemainderSmall(x, Pow2(bits));
  }

  /** Fields that are smaller than their sizes read back unchanged. */
  lemma FittingFields(dest: nat, tier: nat, first: nat, second: nat, ids: Size, epochs: Size)
    requires dest < ids && tier < 4 && first < epochs && second < epochs
    ensures var word := Pack(dest, tier, first, second, ids, epochs);
      && Dest(word, ids) == dest && Tier(word, ids) == tier
      && First(word, ids, epochs) == first && Second(word, ids, epochs) == second
  {
    PackFields(dest, tier, first, second, ids, epochs);
    RemainderSmall(dest, ids);
    RemainderSmall(first, epochs);
    RemainderSmall(second, epochs);
    RemainderSmall(tier, 4);
  }

  /** When the widths fit into 32 bits, all fields of a compact record read back unchanged. */
  lemma CompactFields(dest: nat, tier: nat, first: nat, second: nat, n: nat, ne: nat, idBits: nat, epochBits: nat)
    requires IsWidth(idBits, n, 32) && IsWidth(epochBits, ne, 16) && idBits + 2 + 2 * epochBits <= 32
    requires dest < n && tier < 4 && first < ne && second < ne
    ensures var ids, epochs := Pow2(idBits), Pow2(epochBits);
      var word := Pack(dest, tier, first, second, ids, epochs);
      && Dest(word, ids) == dest && Tier(word, ids) == tier
      && First(word, ids, epochs) == first && Second(word, ids, epochs) == second
  {
    WidthCovers(idBits, n, 32, dest);
    WidthCovers(epochBits, ne, 16, first);
    WidthCovers(epochBits, ne, 16, second);
    FittingFields(dest, tier, first, second, Pow2(idBits), Pow2(epochBits));
  }

  /** When the widths fit, a compact record widens to the canonical 64-bit record. */
  lemma CompactWidens(dest: nat, tier: nat, first: nat, second: nat, n: nat, ne: nat, idBits: nat, epochBits: nat)
    requires IsWidth(idBits, n, 32) && IsWidth(epochBits, ne, 16) && idBits + 2 + 2 * epochBits <= 32
    requires dest < n && tier < 4 && first < ne && second < ne
    ensures var ids, epochs := Pow2(idBits), Pow2(epochBits);
      Widen(Pack(dest, tier, first, second, ids, epochs), ids, epochs) == PackRecord(dest, tier, first, second)
  {
    CompactFields(dest, tier, first, second, n, ne, idBits, epochBits);
  }

  /** Powers of two up to the largest that are needed as numbers. */
  lemma Powers()
    ensures Pow2(2) == 4 && Pow2(8) == 256 && Pow2(24) == COMPACT_MAX_VERTICES && Pow2(32) == IDS
  {
    assert Pow2(8) == 256;
    Pow2Add(8, 8);
    Pow2Add(16, 8);
    Pow2Add(24, 8);
  }

  /** The product of the sizes of a compact record's fields. */
  lemma CompactSizes(idBits: nat, epochBits: nat)
    requires idBits + 2 + 2 * epochBits <= 32
    ensures Pow2(idBits) * (4 * (Pow2(epochBits) * Pow2(epochBits))) <= IDS
  {
    var plans := 2 + (epochBits + epochBits);
    PlanBits(epochBits);
    SizesBound(idBits, plans, 4 * (Pow2(epochBits) * Pow2(epochBits)));
  }

  lemma SizesBound(idBits: nat, plans: nat, size: nat)
    requires size == Pow2(plans) && idBits + plans <= 32
    ensures Pow2(idBits) * size <= IDS
  {
    Pow2Add(idBits, plans);
    Pow2Monotone(idBits + plans, 32);
    Powers();
  }

  lemma PlanBits(epochBits: nat)
    ensures Pow2(2 + (epochBits + epochBits)) == 4 * (Pow2(epochBits) * Pow2(epochBits))
  {
    Pow2Add(epochBits, epochBits);
  }

  /** A compact record of admissible widths is a 32-bit word. */
  lemma CompactFits(dest: nat, tier: nat, first: nat, second: nat, idBits: nat, epochBits: nat)
    requires idBits + 2 + 2 * epochBits <= 32
    ensures Pack(dest, tier, first, second, Pow2(idBits), Pow2(epochBits)) < IDS
  {
    PackFits(dest, tier, first, second, Pow2(idBits), Pow2(epochBits));
    CompactSizes(idBits, epochBits);
  }

  // ---- The compact weighted record ----

  const COMPACT_MAX_VERTICES: Size := 16777216
  const COMPACT_MAX_WEIGHT: nat := 255

  predicate CanPackWeighted(numVertices: nat, dest: nat, weight: int) {
    numVertices <= COMPACT_MAX_VERTICES && dest < COMPACT_MAX_VERTICES && 1 <= weight <= COMPACT_MAX_WEIGHT
  }

  /** dest in bits 0..23 and weight in bits 24..31 take the place of the 32-bit destination. */
  function PackWeighted(dest: nat, weight: nat, tier: nat, first: nat, second: nat): nat {
    PackRecord(Above(dest % COMPACT_MAX_VERTICES, weight % 256, COMPACT_MAX_VERTICES), tier, first, second)
  }

  function WeightedDest(word: nat): nat { Dest(word, IDS) % COMPACT_MAX_VERTICES }

  // (record >> 24) & 0xFF lies in the low 32 bits.
  function WeightedWeight(word: nat): nat { Dest(word, IDS) / COMPACT_MAX_VERTICES % 256 }

  /** A packable edge streams back from its compact record with the same plan fields. */
  lemma WeightedRoundTrip(dest: nat, weight: nat, tier: nat, first: nat, second: nat)
    requires dest < COMPACT_MAX_VERTICES && weight < 256
    ensures var word := PackWeighted(dest, weight, tier, first, second);
      && WeightedDest(word) == dest && WeightedWeight(word) == weight
      && Tier(word, IDS) == tier % 4 && First(word, IDS, EPOCHS) == first % EPOCHS
      && Second(word, IDS, EPOCHS) == second % EPOCHS
  {
    RemainderSmall(dest, COMPACT_MAX_VERTICES);
    RemainderSmall(weight, 256);
    var low := Above(dest, weight, COMPACT_MAX_VERTICES);
    AboveBound(dest, weight, COMPACT_MAX_VERTICES, 256);
    RemainderSmall(low, IDS);
    SplitAbove(dest, weight, COMPACT_MAX_VERTICES);
    PackFields(low, tier, first, second, IDS, EPOCHS);
  }

  /** An edge of a graph of at most 2^24 vertices fits exactly when its weight is positive and what the record
      stores of it reads back unchanged. */
  lemma PackableIffReadBack(numVertices: nat, dest: nat, weight: nat, tier: nat, first: nat, second: nat)
    ensures var word := PackWeighted(dest, weight, tier, first, second);
      CanPackWeighted(numVertices, dest, weight) <==>
        numVertices <= 0x100_0000 && weight > 0 && WeightedDest(word) == dest && WeightedWeight(word) == weight
  {
    WeightedReads(dest, weight, tier, first, second);
    if dest < COMPACT_MAX_VERTICES {
      RemainderSmall(dest, COMPACT_MAX_VERTICES);
    }
  }

  /** The stored destination and weight are truncated to 24 and 8 bits. */
  lemma WeightedReads(dest: nat, weight: nat, tier: nat, first: nat, second: nat)
    ensures var word := PackWeighted(dest, weight, tier, first, second);
      WeightedDest(word) == dest % 0x100_0000 && WeightedWeight(word) == weight % 256
  {
    var d, w := dest % COMPACT_MAX_VERTICES, weight % 256;
    WeightedRoundTrip(d, w, tier, first, second);
    RemainderSmall(d, COMPACT_MAX_VERTICES);
    RemainderSmall(w, 256);
  }
}
