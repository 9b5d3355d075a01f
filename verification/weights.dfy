/** Transaction weights: the policy a dispatchable call is annotated with,
    and the `u32` weight that policy assigns to an extrinsic of a given
    encoded length.

    The arithmetic of a `Basic` policy is the plain `u32` `+` and `*` of the
    runtime, which does not saturate. A release build drops the carry, so `CalculateWeight` wraps modulo 2^32; a debug
    build panics instead, which `CalculateWeightChecked` reports as `None`. */
module Weights {
  import opened Primitives

  /** The unit of computational cost. */
  type Weight = U32

  /** The weight of a `Max` transaction: four mebi-units, meant to fill a block. */
  const MAX_TRANSACTION_WEIGHT: Weight := 4 * 1024 * 1024

  /** How a dispatchable call is weighed. */
  datatype TransactionWeight =
    | Basic(base: Weight, perByte: Weight)  // base weight plus a weight per encoded byte
    | Max                                   // may be included, but nothing may follow it
    | Free                                  // not counted towards the block's weight

  /** The policy of a call that carries no weight annotation. */
  function DefaultWeight(): (w: TransactionWeight)
    ensures forall len: nat :: len < U32_LIMIT ==> CalculateWeight(w, len) == len
  {
    Basic(0, 1)
  }

  /** The weight a `Basic` policy means to charge, over unbounded integers,
      once the length has been narrowed to `u32`. */
  function IntendedBasicWeight(base: Weight, perByte: Weight, len: nat): nat
  {
    base + perByte * AsU32(len)
  }

  /** The weight of `w` at `len` is representable: neither the multiplication
      nor the addition overflows `u32`. Only `Basic` can overflow. */
  predicate Fits(w: TransactionWeight, len: nat)
  {
    w.Basic? ==> IntendedBasicWeight(w.base, w.perByte, len) < U32_LIMIT
  }

  /** `calculate_weight(self, len)` as a release build evaluates it:
      `base + byte * len as u32`, every operation wrapping modulo 2^32. */
  function CalculateWeight(w: TransactionWeight, len: nat): (r: Weight)
    ensures w.Max? ==> r == 4194304
    ensures w.Free? ==> r == 0
    ensures w.Basic? ==> (w.base + w.perByte * len - r) % U32_LIMIT == 0
  {
    match w
    case Basic(base, perByte) =>
      var r := WrappingAddU32(base, WrappingMulU32(perByte, AsU32(len)));
      BasicWeightCongruent(base, perByte, len);
      r
    case Max => MAX_TRANSACTION_WEIGHT
    case Free => 0
  }

  /** `calculate_weight(self, len)` as a debug build evaluates it: the
      multiplication, then the addition, each panicking (here `None`) on
      overflow. */
  function CalculateWeightChecked(w: TransactionWeight, len: nat): (r: Option<Weight>)
    ensures r.Some? <==> Fits(w, len)
    ensures r.Some? ==> r.value == CalculateWeight(w, len)
  {
    match w
    case Basic(base, perByte) =>
      (match CheckedMulU32(perByte, AsU32(len))
       case None => None
       case Some(product) => CheckedAddU32(base, product))
    case Max => Some(MAX_TRANSACTION_WEIGHT)
    case Free => Some(0)
  }

  /** The wrapped `Basic` weight differs from `base + perByte * len` by a multiple of 2^32. */
  lemma BasicWeightCongruent(base: Weight, perByte: Weight, len: nat)
    ensures (base + perByte * len - WrappingAddU32(base, WrappingMulU32(perByte, AsU32(len)))) % U32_LIMIT == 0
  {
    var l := AsU32(len);
    var p := WrappingMulU32(perByte, l);
    var r := WrappingAddU32(base, p);
    MulKeepsCongruence(perByte, len, U32_LIMIT);
    assert l == len % U32_LIMIT;
    var k1 := (perByte * (len / U32_LIMIT));
    assert perByte * len - perByte * l == k1 * U32_LIMIT;
    var k2 := (perByte * l - p) / U32_LIMIT;
    assert perByte * l - p == k2 * U32_LIMIT;
    var k3 := if base + p < U32_LIMIT then 0 else 1;
    assert base + p - r == k3 * U32_LIMIT;
    assert base + perByte * len - r == (k1 + k2 + k3) * U32_LIMIT;
    ModOfMultipleDifference(base + perByte * len - r, 0, k1 + k2 + k3, U32_LIMIT);
  }

  /** When it fits, the `Basic` weight is exactly `base + perByte * len`
      (with the length narrowed to `u32`). */
  lemma BasicExactWhenFits(base: Weight, perByte: Weight, len: nat)
    requires Fits(Basic(base, perByte), len)
    ensures CalculateWeight(Basic(base, perByte), len) == base + perByte * AsU32(len)
    ensures len < U32_LIMIT ==> CalculateWeight(Basic(base, perByte), len) == base + perByte * len
  {
  }

  /** When it does not fit, the `Basic` weight is not capped at `u32::MAX`:
      it wraps around to the intended weight minus a positive multiple of 2^32. */
  lemma BasicWrapsOnOverflow(base: Weight, perByte: Weight, len: nat)
    requires !Fits(Basic(base, perByte), len)
    ensures CalculateWeight(Basic(base, perByte), len) <= IntendedBasicWeight(base, perByte, len) - U32_LIMIT
    ensures (IntendedBasicWeight(base, perByte, len) - CalculateWeight(Basic(base, perByte), len)) % U32_LIMIT == 0
  {
  }

  /** The length enters only through `len as u32`: lengths equal modulo 2^32 weigh the same. */
  lemma WeightDependsOnLowBitsOfLength(w: TransactionWeight, len1: nat, len2: nat)
    requires len1 % U32_LIMIT == len2 % U32_LIMIT
    ensures CalculateWeight(w, len1) == CalculateWeight(w, len2)
  {
  }

  /** Within the representable range, a `Basic` weight never falls below its
      base and never decreases as the length grows. */
  lemma BasicMonotone(base: Weight, perByte: Weight, len1: nat, len2: nat)
    requires len1 <= len2 < U32_LIMIT
    requires Fits(Basic(base, perByte), len2)
    ensures Fits(Basic(base, perByte), len1)
    ensures base <= CalculateWeight(Basic(base, perByte), len1)
    ensures CalculateWeight(Basic(base, perByte), len1) <= CalculateWeight(Basic(base, perByte), len2)
  {
    MulMonotone(len1, len2, perByte);
    BasicExactWhenFits(base, perByte, len2);
    BasicExactWhenFits(base, perByte, len1);
  }

  /** A `Basic` policy without a per-byte weight charges its base for every length. */
  lemma ZeroPerByteIsConstant(base: Weight, len: nat)
    ensures CalculateWeight(Basic(base, 0), len) == base
  {
  }

  /** A length of 2^31 at two units a byte: the debug build panics and the
      release build charges nothing, where a saturating policy would charge `u32::MAX`. */
  lemma OverflowExample()
    ensures CalculateWeightChecked(Basic(0, 2), 0x8000_0000) == None
    ensures CalculateWeight(Basic(0, 2), 0x8000_0000) == 0
  {
  }

  /** Worked weights: `Basic(10, 5)` at 20 bytes, `Max` at 999 bytes and `Free` at 5000 bytes. */
  lemma ExampleWeights()
    ensures CalculateWeight(Basic(10, 5), 20) == 110
    ensures CalculateWeight(Max, 999) == 4 * 1024 * 1024
    ensures CalculateWeight(Free, 5000) == 0
  {
  }
}
