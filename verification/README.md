# Threshold PSI skeleton and trade-off script, modelled in Dafny

This project models the sequential core of a threshold private-set-intersection
prototype, and the data path of its parameter trade-off plotting script.

**The C++ protocol skeleton.** All of it is built from 64-bit wrapping arithmetic on
128-bit blocks:

- **The records and block operations.** The records of `types.hpp` and the placeholder
  "field" operations of `gf128.hpp`. Addition is XOR. Multiplication is a pair of
  wrapping 64-bit products. `hash_to_field_u64` is SplitMix64.
- **PRG, seed mixing and tags.** The placeholder PRG, `mix_seed` and `tag_of` of
  `hash_prg.hpp`. The `mt19937_64` engine is an abstract function from (seed, output
  index) to a word.
- **Share polynomial.** Horner evaluation of the share polynomial (`poly.hpp`).
- **OKVS stand-in.** The map-backed stand-in for the RB-OKVS: `key_hash64`, `Encode` and
  `Decode`.
- **Bucket placement.** `h_pos`, `positions_sorted_n` and `insert_element_Ti`
  (`layout.hpp`).
- **The integer bookkeeping of `run_once`:**
  - the synthetic party sets;
  - the OKVS parameter clamp and seeds;
  - the step-S14 sigma queries with their byte count;
  - `Comm::total`;
  - the reconstruction of steps S31-S33: pooling each bucket, grouping by tag key,
    keeping one share per party, the k-threshold, and the result set.

**The Python script** (`plot_param_tradeoff.py`). Its data path is modelled up to the
plotting:

- the check that both input files exist;
- the lower-casing of headers;
- column resolution: the left-most header containing any candidate substring, or an
  index error;
- the per-threshold group-by mean, computed with exact `real` arithmetic.

**The word model.** `u64` is `int` restricted to `0 <= x < 2^64`:

- XOR is defined bit by bit on naturals (`Words.BitXor`).
- `<<` reduces modulo 2^64, so `lo << 1` drops bit 63.
- `+` and `*` wrap explicitly.
- `>>` is repeated halving.

Modules follow the source files: `Words`, `Types`, `Gf128`, `HashPrg`, `Poly`,
`Rbokvs`, `Layout`, `Party` and `Reconstruct` for the C++ side, and `Columns`,
`GroupBy` and `Tradeoff` for the script. `Wrappers` holds `Option` and `Result`.

Default member initialisers become constants:

- `Types.DefaultBlock` and `Types.DefaultTag` are `{0, 0}`.
- `Types.DefaultParams` is `m = 0`, `w = 64`, seeds 0.

## Model

| member | source | states |
|---|---|---|
| Types.TagEq | include/types.hpp:13 | tag equality holds exactly when the two tags are equal, i.e. both halves agree |
| Types.TagEqIsEquivalence | include/types.hpp:13 | tag equality is reflexive, symmetric and transitive |
| Types.MakeBlock | include/types.hpp:24 | `make_block(h, l)` has `hi == h` and `lo == l` |
| Types.MakeTag | include/types.hpp:25 | `make_tag(h, l)` has `hi == h` and `lo == l` |
| Gf128.GfAddCommutative | include/gf128.hpp:5-7 | `gf_add` is commutative |
| Gf128.GfAddAssociative | include/gf128.hpp:5-7 | `gf_add` is associative |
| Gf128.GfAddZero | include/gf128.hpp:5-7 | `{0,0}` is the identity of `gf_add` on both sides |
| Gf128.GfAddSelf | include/gf128.hpp:5-7 | every block added to itself gives `{0,0}` |
| Gf128.GfAddCancel | include/gf128.hpp:5-7 | adding the same block twice gives back the original |
| Gf128.GfMulHalvesIndependent | include/gf128.hpp:10-15 | the low half of `gf_mul` depends only on the operands' low halves; the high half depends only on their high halves |
| Gf128.GfMulIgnoresLowBit | include/gf128.hpp:12-13 | flipping bit 0 of both halves of the right operand changes that operand but not the product, because or-ing with 1 forces the bit |
| Gf128.UnMixMix | include/gf128.hpp:20-25 | the SplitMix64 finaliser is undone step by step: add, xorshift and odd multiplications all have inverses modulo 2^64 |
| Gf128.MixInjective | include/gf128.hpp:20-25 | the finaliser is injective on 64-bit words |
| Gf128.HashToFieldInjective | include/gf128.hpp:18-27 | distinct integers map to distinct blocks, so the evaluation points of different parties differ |
| Gf128.HashToFieldSwap | include/gf128.hpp:26 | xoring the separator constant into the input swaps the two halves of the output |
| HashPrg.NextBlock128 | include/hash_prg.hpp:10-13 | a block consumes exactly two engine outputs, the first becoming `hi` and the second `lo`; the seed is unchanged |
| HashPrg.DrawBlocksClosedForm | include/hash_prg.hpp:10-13 | after `count` draws the PRG has consumed `2*count` outputs, and block j is made of outputs 2j and 2j+1 |
| HashPrg.MixSeedXorLinear | include/hash_prg.hpp:16-18 | for a fixed salt, `mix_seed(a,s) ^ mix_seed(b,s) == mix_seed(a xor b, 0)` |
| HashPrg.MixSeedCollision | include/hash_prg.hpp:16-18 | two blocks share a seed under one salt exactly when their `hi` halves differ by their `lo` halves' difference shifted left by one |
| HashPrg.MixSeedIgnoresTopBit | include/hash_prg.hpp:17 | flipping bit 63 of `lo` gives a different block with the same seed |
| HashPrg.TagOf | include/hash_prg.hpp:21-25 | the tag is the first two outputs of the engine seeded with `mix_seed(x, salt)` |
| HashPrg.TagOfIgnoresTopBit | include/hash_prg.hpp:17-25 | for every engine, blocks differing only in bit 63 of `lo` get the same tag |
| Poly.PolyEvalFxAtI | include/poly.hpp:7-14 | `k <= 1` returns x and draws nothing; otherwise exactly `k-1` blocks are drawn, and the result is the Horner value over those draws times alpha, plus x |
| Poly.DrawCoefficients | include/poly.hpp:9-10 | the draw loop yields the blocks of `k-1` consecutive `next_block128` calls, in order |
| Poly.HornerLoop | include/poly.hpp:11-12 | the downward loop from `r[k-2]` computes the Horner recursion over all coefficients |
| Poly.EvalFxOneCoefficient | include/poly.hpp:11-13 | with `k == 2` the share is `gf_add(gf_mul(r[0], alpha), x)` |
| Poly.EvalFxMasksX | include/poly.hpp:13 | for fixed draws and alpha, `share xor x` does not depend on x |
| Rbokvs.KeyHash64InjectiveLo | include/rbokvs.hpp:17-19 | for a fixed `hi`, `key_hash64` is injective in `lo`, since the multiplier is odd |
| Rbokvs.KeyHash64InjectiveHi | include/rbokvs.hpp:17-19 | for a fixed `lo`, `key_hash64` is injective in `hi` |
| Rbokvs.Encode | src/rbokvs.cpp:3-7 | the encoded store keeps the given parameters |
| Rbokvs.EncodeKeys | src/rbokvs.cpp:5 | the store's keys are exactly the hashes of the entries' keys |
| Rbokvs.EncodeLastWins | src/rbokvs.cpp:5 | under every hash the store holds the value of the last entry with that hash |
| Rbokvs.Decode | src/rbokvs.cpp:8-10 | a present hash decodes to its stored value |
| Rbokvs.DecodeMiss | src/rbokvs.cpp:12-13 | a miss returns a block whose two halves xor to all ones |
| Rbokvs.DecodeEncode | src/rbokvs.cpp:3-10 | round trip: a key decodes to the value of the last entry with its hash |
| Rbokvs.DecodeEncodeAbsent | src/rbokvs.cpp:3-13 | a key whose hash no entry shares is a miss |
| Rbokvs.DecodeSeesHashOnly | src/rbokvs.cpp:9-13 | keys with equal hashes decode alike |
| Layout.UnPosFinalPosFinal | include/layout.hpp:7-8 | the multiply/xorshift mixing of `h_pos` is invertible before the reduction |
| Layout.PosHashDomainsDiffer | include/layout.hpp:7-8 | before `% B`, different domains never collide for the same element and seed |
| Layout.HPos | include/layout.hpp:5-10 | for `B > 0`, `h_pos < B` |
| Layout.HPosIgnoresTopBit | include/layout.hpp:7 | `h_pos` does not see bit 63 of `lo` |
| Layout.InsertSortedSorted | include/layout.hpp:15 | inserting into a sorted list keeps it sorted |
| Layout.SortNatSorted | include/layout.hpp:15 | the sort's result is sorted |
| Layout.SortNat | include/layout.hpp:15 | the sort returns a permutation of its input |
| Layout.PositionsSortedN | include/layout.hpp:12-17 | exactly n positions, non-decreasing, each `< B`, a permutation of `h_pos(x, 1..n, seed, B)` |
| Layout.SlotsDistinct | include/layout.hpp:28-31 | for one inserting party, the indices `(g+i-1) % n` of the n parties 1..n are pairwise different |
| Layout.InsertElementTiPlacesOwn | include/layout.hpp:27-29 | after `insert_element_Ti`, the bucket `I[(2i-1) % n]` of x's sorted positions I holds `Share{i, fxi, tag}` |
| Layout.InsertElementTiPlacesSigma | include/layout.hpp:27-33 | after `insert_element_Ti`, for every sigma `(g, sig)` the bucket `I[(g+i-1) % n]` holds `Share{g, sig, tag}` |
| Layout.InsertPlacements | include/layout.hpp:27-32 | one share per sigma plus one, every bucket index below B |
| Layout.InsertElementTi | include/layout.hpp:20-34 | the table keeps B buckets and its item total grows by exactly one plus the number of sigmas |
| Layout.InsertElementTiAppends | include/layout.hpp:29-32 | append only: every bucket keeps its items and gains exactly the shares placed in it, in order |
| Layout.AppendSharesBuckets | include/layout.hpp:29-32 | appending placements changes each bucket only by appending its own placements |
| Layout.AppendSharesTotal | include/layout.hpp:29-32 | appending placements grows the total by their number |
| Party.Total | src/main_party.cpp:30 | `total()` is `S13 + S14`, wrapped modulo 2^64 |
| Party.BuildSets | src/main_party.cpp:48-59 | index 0 is empty and index i holds party i's set |
| Party.PartySetSize | src/main_party.cpp:49-59 | each set has `max(S, common)` elements with `common = max(1, S/2)` |
| Party.PartySetNoDuplicates | src/main_party.cpp:52-58 | no set holds an element twice |
| Party.PartySetsIntersect | src/main_party.cpp:52-58 | two different parties' sets intersect in exactly the common elements `{0, 100+tt}` |
| Party.ClampParams | src/main_party.cpp:86-91 | `m` is the ceiling raised to at least `w + 1`, and `w` is kept |
| Party.ClampSeeds | src/main_party.cpp:90-91 | for `i < 2^24`, `seed_r1 = 0xA1B2C3D4<<32 + i` and `seed_r2 = 0x0F1E2D3C<<32 + 256*i` |
| Party.ClampSeedsDistinct | src/main_party.cpp:90 | different parties get different `seed_r1` |
| Party.OthersFromSpec | src/main_party.cpp:118-119 | the queried parties are exactly those of 1..n other than i, strictly ascending, n-1 of them |
| Party.Sigmas | src/main_party.cpp:115-130 | each element gets `(g, okvs[g].Decode(x))` for every `g != i` in increasing order, and S14 grows by 32 bytes per query |
| Party.BumpValue | src/main_party.cpp:122-127 | after k queries the counter is the start plus `32k`, modulo 2^64 |
| Party.S14Element | src/main_party.cpp:112-132 | the table is exactly `insert_element_Ti` of the element with the sigmas `(g, okvs[g].Decode(x))` for every `g != i` ascending; it gains n shares, and S14 grows by one 32-byte exchange per other party |
| Party.S14Party | src/main_party.cpp:111-133 | party i's table is its elements inserted one after another in order; it gains `n * ni` shares and `(n-1) * ni` queries are counted |
| Party.RunS14 | src/main_party.cpp:108-134 | `Ts[0]` is empty and `Ts[i]` is party i's elements inserted in order into B empty buckets; party i's holds `n * ni` shares; S14 ends at `32 * (n-1) * sum of ni`, modulo 2^64 |
| Party.OwnShareInserted | src/main_party.cpp:112-132 | inserting element `(x, fxi)` of party i puts `Share{i, fxi, tag}` into bucket `I[(2i-1) % n]` of x's sorted positions |
| Party.OtherShareInserted | src/main_party.cpp:118-132 | inserting element x of party i puts, for every other party g, `Share{g, okvs[g].Decode(x), tag}` into bucket `I[(g+i-1) % n]` |
| Party.ElementInsertedGrows | src/main_party.cpp:132 | inserting an element keeps every bucket's earlier shares in front |
| Party.InsertedUpToGrows | src/main_party.cpp:110-133 | a party's buckets after m elements are a prefix of its buckets after any later m' |
| Party.InsertedUpToOwn | src/main_party.cpp:110-133 | after all of party i's elements, element e's own share is still in bucket `I[(2i-1) % n]` of its key's positions |
| Party.InsertedUpToOther | src/main_party.cpp:110-133 | after all of party i's elements, element e's share for each other party g is still in bucket `I[(g+i-1) % n]` |
| Party.QueriedClosedForm | src/main_party.cpp:110-130 | the queries of parties 1..m total `(n-1)` times their element count |
| Reconstruct.TagKeyIsMixSeed | src/main_party.cpp:140 | `tag_key` is the salt-free `mix_seed` of the tag's halves |
| Reconstruct.TagKeyCollision | src/main_party.cpp:140 | two tags share a key exactly when their `hi` halves differ by their `lo` difference shifted left by one |
| Reconstruct.TagKeyMergesTopBit | src/main_party.cpp:140 | tags differing only in bit 63 of `lo` are grouped together |
| Reconstruct.PoolMembers | src/main_party.cpp:143-145 | a share is pooled exactly when some party 1..n holds it in that bucket |
| Reconstruct.GroupMembers | src/main_party.cpp:147-148 | a share is in a key's group exactly when it is pooled with that tag key |
| Reconstruct.FirstPerParty | src/main_party.cpp:153-161 | the de-duplication loop keeps the first share of each party; no party twice, and every party of the group present |
| Reconstruct.FirstPerPartyShape | src/main_party.cpp:156-160 | the kept points have distinct parties, and those parties are the group's parties |
| Reconstruct.FirstPerPartyKeepsFirst | src/main_party.cpp:157-160 | a share with no earlier share of its party gives a point |
| Reconstruct.FirstPerPartyCount | src/main_party.cpp:153-161 | the number of points is the number of distinct parties in the group |
| Reconstruct.UsePoints | src/main_party.cpp:162-164 | a group is skipped exactly when it has fewer than k points; otherwise the first k are used |
| Reconstruct.UsePointsDistinct | src/main_party.cpp:154-164 | a group is used exactly when at least k distinct parties hold a share; the points used have distinct parties, all from the group |
| Reconstruct.BucketResultIff | src/main_party.cpp:147-174 | a key is accepted in a bucket exactly when it occurs, at least k distinct parties pooled a share with it, and the check accepts its first k points |
| Reconstruct.UnionMembers | src/main_party.cpp:142 | a key is in the union over buckets exactly when it is in some bucket's set |
| Reconstruct.ResultHashSound | src/main_party.cpp:142-175 | every key in `result_hash` was accepted in some bucket |
| Reconstruct.ResultHashComplete | src/main_party.cpp:142-175 | every key accepted in some bucket is in `result_hash` |
| Columns.LowerSpec | plot_param_tradeoff.py:32 | lower-casing leaves no capital letter and changes nothing but capitals |
| Columns.LowerIdempotent | plot_param_tradeoff.py:32 | lower-casing twice is lower-casing once |
| Columns.LowerAllIdempotent | plot_param_tradeoff.py:32-33 | re-lower-casing the header list changes nothing |
| Columns.ContainsIff | plot_param_tradeoff.py:34 | `needle in hay` holds exactly when needle occurs at some position of hay |
| Columns.ContainsTransitive | plot_param_tradeoff.py:35 | a substring of a substring is a substring |
| Columns.FirstMatch | plot_param_tradeoff.py:34-35 | the chosen index matches, no earlier header matches, and none is chosen only when no header matches |
| Columns.ResolveIsFirstMatch | plot_param_tradeoff.py:34-35 | `[c for c in cols if ...][0]` fails exactly when no header matches, and otherwise is the left-most matching header |
| Columns.ResolveCandidateOrder | plot_param_tradeoff.py:35 | the order of the candidates does not change the resolved column |
| Columns.MatchingColsSubsumed | plot_param_tradeoff.py:35 | a candidate that contains another candidate never changes the match list |
| Columns.ThresholdIsFirstT | plot_param_tradeoff.py:41 | the threshold column is the left-most header containing "t" |
| Columns.SuccessIsSubsumed | plot_param_tradeoff.py:35 | the "success" candidate is subsumed by "succ" |
| Columns.ResolveAfterLowerStable | plot_param_tradeoff.py:39-41 | resolving against already lower-cased headers gives the same column |
| GroupBy.InsertKeyAscending | plot_param_tradeoff.py:43 | adding a key to ascending unique keys keeps them ascending and unique |
| GroupBy.SortedKeys | plot_param_tradeoff.py:43 | the group keys are exactly the column's values |
| GroupBy.SortedKeysAscending | plot_param_tradeoff.py:43 | the group keys are strictly ascending |
| GroupBy.GroupMean | plot_param_tradeoff.py:43 | one row per distinct key, keys strictly ascending, each paired with sum/count of its rows |
| GroupBy.GroupMeanEmpty | plot_param_tradeoff.py:43 | an empty table gives an empty result |
| GroupBy.SumWhereBounds | plot_param_tradeoff.py:43 | a group's sum lies between count times a lower bound and count times an upper bound of its values |
| GroupBy.MeanBetween | plot_param_tradeoff.py:43 | each mean lies between any lower and upper bound of its group's values |
| GroupBy.GroupMeanExample | plot_param_tradeoff.py:43 | keys `[1,1,2]` with values `[10,20,30]` give `[(1,15),(2,30)]` |
| Tradeoff.ResolveIn | plot_param_tradeoff.py:34-42 | resolution fails, naming the column, exactly when no header matches; otherwise it gives the left-most match |
| Tradeoff.AnalyseMissingFile | plot_param_tradeoff.py:27-28 | a missing input file raises `FileNotFoundError` before either file is read |
| Tradeoff.AnalyseOkvsErrorsFirst | plot_param_tradeoff.py:31-35 | with both files present, no alpha column fails first, then no success column, whatever the threshold table holds |
| Tradeoff.AnalyseRtErrors | plot_param_tradeoff.py:38-42 | once the OKVS columns resolve, no threshold column fails, then no comm column |
| Tradeoff.AnalyseSuccess | plot_param_tradeoff.py:32-43 | on success each of the four columns is the left-most lower-cased header matching its candidates, the threshold and comm columns differ, and the means are the group-by mean of the comm column by the threshold column |
| Tradeoff.AnalyseColumnClash | plot_param_tradeoff.py:41-43 | once all four columns resolve, the script fails exactly when the threshold and comm columns are the same header, because `reset_index` cannot insert a column that is already there |
| Tradeoff.AnalyseSameColumnFails | plot_param_tradeoff.py:41-43 | a threshold table with headers `bytes, t` resolves both columns to `bytes` and fails |
| Tradeoff.AnalyseOkvsColumnsLocal | plot_param_tradeoff.py:31-35 | the alpha and success columns depend on the OKVS table only |
| Tradeoff.AnalyseMeansLocal | plot_param_tradeoff.py:38-43 | the threshold and comm columns and the means depend on the threshold table only |

## Left out

- **Lagrange interpolation.** The shares' Lagrange check (`lagrange_at_gf128`) and
  `gf128::from_u64` are defined in a header that is not part of this model. The check is
  the parameter `ok` of `Reconstruct.BucketResult`, and a point's x-coordinate is the
  party id as an integer.
- **S13 byte count.** The S13 byte count calls `RBOKVS::byte_size`, which is not part of
  this model. `Comm.s13` is an input of `Party.Total`.
- **The `mt19937_64` engine.** It is an abstract function `(seed, index) -> word`; its
  internals are not modelled.
- **Floating point.** Not modelled:
  - the `ceil((1+eps)*ni)` sizing, which is the input `mCeil` of `Party.ClampParams`;
  - `B = eps_hash*M + 1`, which is the input `B` of `Party.RunS14`;
  - timing percentiles;
  - the synthetic cuckoo curve of the script.
- **Side effects.** Timing, CSV and console output, and all plotting are not modelled.
- **pandas.** CSV parsing is not modelled: a table is an already parsed header row with
  rectangular `real` rows, and a column is read by position. The following are also not
  modelled:
  - NaN keys in the group-by;
  - duplicate lower-cased headers after the columns are renamed;
  - non-numeric cells.
- Columns.LowerSpec: lower-cases ASCII letters only, whereas Python's `str.lower` also
  maps non-ASCII capitals; non-ASCII headers are not modelled.
- **Candidate order.** For the script's column choice the code is followed: the left-most
  header matching ANY candidate wins. A description of the script as trying the
  candidates in priority order disagrees with this; `Columns.ResolveCandidateOrder`
  proves that the order is irrelevant.
- **Iteration order.** The only hash-ordered container the reconstruction iterates is
  `by_tag`, an `unordered_map`; its iteration order is not modelled. The pool is a vector
  and is modelled in order (parties 1..n, each bucket's items in order). `seen_party` is
  only queried for membership. `result_hash` is modelled as a set, where the visiting
  order cannot matter.
- Party.ClampSeeds: the additive closed form of the seeds is stated only for party
  numbers below 2^24, where the XOR touches no set bit of the constant; the general case
  is the XOR in `Party.ClampParams` itself.
- Layout.PositionsSortedN: a negative n is excluded by the precondition, because
  `reserve(n)` converts it to a huge size and throws `length_error`; the model does not
  model that exception.
- Party.Sigmas: the counter is always present (`main` passes `&comm`); the `comm == nullptr`
  default, under which no bytes are counted, is not modelled. The same holds for
  `Party.S14Element`, `Party.S14Party` and `Party.RunS14`.
- Party.RunS14: the precondition `2 * n < 2^31` keeps the source's `int` index arithmetic
  `(g + i - 1)` and `(i + i - 1)` free of overflow, which the source does not check.
