# Substrate node runtime: transaction weights, currency-to-vote, GRANDPA digest queries

This project models three small, pure pieces of logic from a Substrate
blockchain runtime and proves properties about them in Dafny 4.11:

- **Transaction weights** (`weights.dfy`, module `Weights`). A dispatchable
  call carries a `TransactionWeight` policy: `Basic(base, byte)`, `Max` or
  `Free`. `calculate_weight` turns the policy and the encoded length of the
  extrinsic into a `u32` weight. A call without an annotation uses the
  default policy, `Basic(0, 1)`.
- **Currency-to-vote conversion** (`currency_to_vote.dfy`, module
  `CurrencyToVote`). The runtime's `CurrencyToVoteHandler` scales a `u128`
  balance down to a `u64` vote weight, and scales a vote weight back up. Both
  directions use `factor = max(total_issuance / u64::MAX, 1)`.
- **GRANDPA digest queries** (`grandpa_digest.dfy`, module `GrandpaDigest`).
  `grandpa_pending_change` and `grandpa_forced_change` scan a header's digest
  logs in order. Each skips the items of other modules and returns GRANDPA's
  scrape of the first GRANDPA signal that GRANDPA recognises.
- `primitives.dfy` (module `Primitives`) holds the fixed-width integer types
  `U32`, `U64` and `U128`, the truncating `as` casts, wrapping and checked
  `u32` arithmetic, `Option`, and a few modular-arithmetic lemmas.

Boundaries of the model:
- The total issuance is a parameter. The runtime reads it from the balances
  module's storage.
- GRANDPA's two scrape functions are parameters `Signal -> Option<Change>`.
  GRANDPA is not part of this model, and neither is the definition of a
  scheduled change.
- A digest log is `Grandpa(signal)` or `Other(item)`. `Other` covers the
  system module's changes-trie root and Aura's pre-runtime item.

**Weight arithmetic wraps; nothing in the code saturates.** The code uses
plain `u32` `+` and `*` and a truncating `len as u32`. The model reads that
code in two ways:
- `Weights.CalculateWeight` is the release-build reading. Each operation wraps
  modulo 2^32, and the length is reduced modulo 2^32.
- `Weights.CalculateWeightChecked` is the debug-build reading. There, Rust
  panics on overflow, which the model returns as `None`.
- The two readings agree exactly when the intended value
  `base + byte * (len as u32)` fits in `u32`. Nothing in the model saturates.

## Model

| member | source | states |
|---|---|---|
| Primitives.AsU32 | core/sr-primitives/src/weights.rs:72 | `len as u32` keeps a length below 2^32 unchanged. It never increases a length, and it drops only a multiple of 2^32. |
| Primitives.AsU64 | node/runtime/src/lib.rs:83 | `as u64` keeps a value below 2^64 unchanged. It never increases a value, and it drops only a multiple of 2^64. |
| Primitives.WrappingAddU32 | core/sr-primitives/src/weights.rs:72 | Release-build `u32` `+`: the sum itself when it fits, and in every case congruent to the sum modulo 2^32. |
| Primitives.WrappingMulU32 | core/sr-primitives/src/weights.rs:72 | Release-build `u32` `*`: the product itself when it fits, and in every case congruent to the product modulo 2^32. |
| Primitives.CheckedAddU32 | core/sr-primitives/src/weights.rs:72 | Debug-build `u32` `+`: panics (`None`) exactly when the sum reaches 2^32, and otherwise agrees with the release-build sum. |
| Primitives.CheckedMulU32 | core/sr-primitives/src/weights.rs:72 | Debug-build `u32` `*`: panics (`None`) exactly when the product reaches 2^32, and otherwise agrees with the release-build product. |
| Weights.CalculateWeight | core/sr-primitives/src/weights.rs:69-77 | For every length, `Max` weighs 4·1024·1024 and `Free` weighs 0. A `Basic(base, byte)` weight is congruent to `base + byte·len` modulo 2^32, so it is the intended value reduced modulo 2^32. |
| Weights.DefaultWeight | core/sr-primitives/src/weights.rs:79-85 | The default policy charges exactly the encoded length, for every length below 2^32. |
| Weights.CalculateWeightChecked | core/sr-primitives/src/weights.rs:72 | The debug build panics (`None`) exactly when `base + byte·(len as u32)` does not fit in `u32`. Otherwise it returns the release-build weight. |
| Weights.BasicExactWhenFits | core/sr-primitives/src/weights.rs:72 | When the value fits in `u32`, a `Basic` weight is exactly `base + byte·(len as u32)`. For lengths below 2^32 that is `base + byte·len`. |
| Weights.BasicWrapsOnOverflow | core/sr-primitives/src/weights.rs:72 | When the value does not fit, the weight is not capped. It equals the intended value minus a positive multiple of 2^32, so it is at most that value minus 2^32. |
| Weights.WeightDependsOnLowBitsOfLength | core/sr-primitives/src/weights.rs:72 | Two lengths that are equal modulo 2^32 get the same weight under every policy. |
| Weights.BasicMonotone | core/sr-primitives/src/weights.rs:72 | Suppose `len1 ≤ len2 < 2^32` and the weight at `len2` fits. Then the weight at `len1` also fits, is at least `base`, and is at most the weight at `len2`. |
| Weights.ZeroPerByteIsConstant | core/sr-primitives/src/weights.rs:72 | `Basic(base, 0)` weighs `base` at every length. |
| Weights.OverflowExample | core/sr-primitives/src/weights.rs:72 | `Basic(0, 2)` at length 2^31 panics in a debug build. In a release build it weighs 0. |
| Weights.ExampleWeights | core/sr-primitives/src/weights.rs:69-77 | `Basic(10, 5)` at 20 bytes weighs 110. `Max` at 999 bytes weighs 4·1024·1024. `Free` at 5000 bytes weighs 0. |
| CurrencyToVote.Factor | node/runtime/src/lib.rs:78-80 | The factor is at least 1. It is exactly 1 iff the issuance is below 2·u64::MAX. Once the issuance reaches u64::MAX, the factor is the largest `f` with `f·u64::MAX ≤ issuance`. |
| CurrencyToVote.ToVote | node/runtime/src/lib.rs:82-84 | If `x / factor` fits in `u64`, the vote `v` satisfies `v·factor ≤ x < (v+1)·factor`. In every case the vote is congruent to the quotient modulo 2^64. |
| CurrencyToVote.FromVote | node/runtime/src/lib.rs:86-88 | Widening gives an exact multiple of the factor, and dividing it by the factor returns the vote. This requires the product to fit in `u128`. |
| CurrencyToVote.UnitFactorIsIdentity | node/runtime/src/lib.rs:78-88 | While the issuance is below 2·u64::MAX, widening is the identity. Narrowing is also the identity on values up to u64::MAX. |
| CurrencyToVote.NarrowThenWiden | node/runtime/src/lib.rs:82-88 | If `x / factor` fits in `u64`, widening the narrowed value is defined. The result is at most `x` and falls short of `x` by less than the factor. |
| CurrencyToVote.WidenThenNarrow | node/runtime/src/lib.rs:82-88 | Every `u64` vote widens without overflowing `u128`, and narrowing the widened vote returns the vote. |
| CurrencyToVote.FactorAtMost | node/runtime/src/lib.rs:79 | The factor never exceeds 2^64 + 1, which is the factor of the largest `u128` issuance. |
| CurrencyToVote.ToVoteMonotoneWhenFits | node/runtime/src/lib.rs:82-84 | While the quotient fits in `u64`, a larger balance never gets fewer votes. |
| CurrencyToVote.ToVoteTruncatesWholeIssuance | node/runtime/src/lib.rs:78-84 | At issuance 2^64 the factor is 1. A balance of 2^64 then converts to 0 votes, while 2^64−1 converts to u64::MAX votes. |
| CurrencyToVote.ToVoteSaturating | node/runtime/src/lib.rs:82-84 | This is the corrected narrowing. The vote `v` always satisfies `v·factor ≤ x`. Below u64::MAX it also satisfies `x < (v+1)·factor`. It agrees with `ToVote` whenever the quotient fits. |
| CurrencyToVote.ToVoteSaturatingMonotone | node/runtime/src/lib.rs:82-84 | Under the corrected narrowing, a larger balance never gets fewer votes. |
| GrandpaDigest.FirstGrandpaScrape | node/runtime/src/lib.rs:349-357 | The result is `None` iff no GRANDPA log scrapes to `Some`. Otherwise it is the scrape of the earliest GRANDPA log that does. |
| GrandpaDigest.FirstMatchPastMiss | node/runtime/src/lib.rs:353-355 | If the first log is not a hit, the scan of the whole digest has the same first-match result as the scan of the rest. |
| GrandpaDigest.ScanGrandpaLogs | node/runtime/src/lib.rs:349-357 | The loop with early return has the first-match result: `None` iff there is no hit, otherwise the scrape of the earliest hit. |
| GrandpaDigest.GrandpaPendingChange | node/runtime/src/lib.rs:346-358 | `grandpa_pending_change` returns `Some(c)` iff some GRANDPA log scrapes to `Some`, with `c` taken from the earliest such log. It equals the reference scan. |
| GrandpaDigest.GrandpaForcedChange | node/runtime/src/lib.rs:360-372 | `grandpa_forced_change` has the same first-match semantics, using the forced-change scraper. |
| GrandpaDigest.FirstMatchIsUnique | node/runtime/src/lib.rs:346-358 | The first-match property allows exactly one result per digest and scraper. |
| GrandpaDigest.ScanIsFilterThenSearch | node/runtime/src/lib.rs:349-356 | Scanning item by item gives the same result as filtering the GRANDPA signals first and then searching them. |
| GrandpaDigest.GrandpaSignals | node/runtime/src/lib.rs:349-352 | The filtered sequence is no longer than the digest. It contains the signal of every GRANDPA log and nothing that is not the signal of a GRANDPA log. Digest order and multiplicity are stated by `GrandpaDigest.GrandpaSignalsSnoc`. |
| GrandpaDigest.FirstScraped | node/runtime/src/lib.rs:353-357 | The search over the filtered signals returns `None` iff `scrape` recognises none of them. Otherwise it returns the scrape of the earliest signal it recognises. |
| GrandpaDigest.GrandpaSignalsSnoc | node/runtime/src/lib.rs:349-352 | Appending a log to the digest appends its signal, if it is a GRANDPA log, and nothing otherwise. With the empty digest filtering to the empty sequence, this fixes the filter's result: the GRANDPA signals in digest order, each once. |
| GrandpaDigest.GrandpaSignalsOfConcat | node/runtime/src/lib.rs:349-352 | Filtering GRANDPA signals distributes over concatenation of digests. |
| GrandpaDigest.ScanOfConcat | node/runtime/src/lib.rs:349-357 | Scanning `a + b` gives the scan of `a` if that found a hit, and the scan of `b` otherwise. |
| GrandpaDigest.InsertingOtherLogKeepsScan | node/runtime/src/lib.rs:349-352 | Inserting a log of another module at any position leaves the scan result unchanged. |
| GrandpaDigest.RemovingOtherLogKeepsScan | node/runtime/src/lib.rs:363-366 | Removing a log of another module from any position leaves the scan result unchanged. |

## Left out

- CurrencyToVote.FromVote: requires `x · factor < 2^128`. With plain `u128` `*`, the source would panic in a debug build and wrap in a release build. The model does not cover either outcome.
- GrandpaDigest.GrandpaSignals: its own contract states only the length bound and membership. The digest order and multiplicity that `filter_map` keeps are stated by the separate lemmas `GrandpaDigest.GrandpaSignalsSnoc` and `GrandpaDigest.ScanIsFilterThenSearch`.
- Weights.BasicMonotone: is stated only for lengths below 2^32 whose weight fits. Beyond that range the wrapped weight is not monotone (see `Weights.BasicWrapsOnOverflow`).
- The platform width of `usize` is not modelled. A length is any natural number, and `len as u32` reduces it modulo 2^32. That is exact for both 32-bit and 64-bit `usize`.
- Reading the total issuance from the balances module is a storage read, so it is a parameter.
- `Grandpa::scrape_digest_change` and `Grandpa::scrape_digest_forced_change` are function parameters. Their code lives in the GRANDPA module, which is not part of this model. `Grandpa::grandpa_authorities` and the Aura queries only forward to other modules and are left out.
- The `construct_runtime!` and `impl_runtime_apis!` expansions are left out. The generated Call/Event/Origin/Log enumerations, their encoding and the metadata are produced by macros whose code is not part of this model.
- The executive block pipeline is left out: initialize, apply, finalize, execute, validate, the offchain worker, and block-weight admission. The runtime only forwards these calls to the executive module, which is not part of this model. So nothing here models how `Max` or `Free` affect the block-weight counter.
- Inherent extrinsic creation and checking and `random_seed` are left out. They forward to code that is not part of this model.
- The `impl X::Trait for Runtime` blocks and the `parameter_types!` constants are type-level configuration with no logic of their own.
- The required ordering between session keys and session handlers is only a comment in the source and is not enforced by code.
- `VERSION` and `native_version` are constant records with no behaviour.

## Findings

| source | as written | input that shows it | evidently intended | confidence | as-written member | corrected member |
|---|---|---|---|---|---|---|
| node/runtime/src/lib.rs:79-83 | `(x / factor()) as u64` keeps the low 64 bits of the quotient. With `factor() = max(issuance / u64::MAX, 1)`, a balance within the issuance can still give a quotient above u64::MAX. | Total issuance 2^64 gives factor 1. A balance of 2^64 then converts to 0 votes, while 2^64 − 1 converts to u64::MAX votes. | A larger balance never converts to fewer votes. The quotient saturates at u64::MAX instead of wrapping. | medium; not executed | CurrencyToVote.ToVote, shown by CurrencyToVote.ToVoteTruncatesWholeIssuance | CurrencyToVote.ToVoteSaturating, proved monotone by CurrencyToVote.ToVoteSaturatingMonotone |

The round-trip and monotonicity lemmas (`NarrowThenWiden`, `ToVoteMonotoneWhenFits`) assume
the quotient fits in `u64`. Under that assumption, `ToVoteSaturating` proves
that the corrected and as-written conversions coincide.
