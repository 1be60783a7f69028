# SKUSelect in Dafny

A model of `SKUSelect` (sku-select). This component answers two questions about a
catalog of SKUs, where each SKU is one combination of option values, one value per
option group:

- which values are still selectable (not disabled) given the current partial selection;
- which SKU the current selection designates.

It encodes every option value as a prime and every SKU as the product of its
values' primes (its *code*). Both questions then become divisibility and equality
tests on integers.

The model has five modules:

- `Primes` (`primes.dfy`): `generatePrimes` as a method with its two loops.
  - Proved: it returns exactly the first `n` primes in ascending order.
  - Termination uses a ghost bound, the next prime above the candidate, which exists by Euclid's argument.
- `SkuIndex` (`sku_index.dfy`): the three index builders of the constructor as pure functions, plus `findGroupIndexOfSKUProp`.
  - The index is the value-to-prime map, the `(id, code)` entries and the per-group prime lists.
  - With them: facts about products of primes (order independence, divisibility by members and by pairs, product 1 iff no values).
- `SkuSelection` (`sku_selection.dfy`): the selection, one slot per group (`None` for `undefined`), as a value.
  - What the queries compute from it, and the toggle that `selectSKUProp` performs.
- `SkuSelect` (`sku_select.dfy`): the class `SKUSelect`.
  - Its index fields are constants written once by the constructor; the selection is a mutable `array<Option<Value>>` that `SelectSKUProp` updates in place.
  - `CheckIsSKUPropDisabled` keeps the source's `for` loop with its `result` flag and `break`.
  - The class invariant `Valid()` says the index is what the builders produce from the groups and the SKUs, and every selected value sits in its own group's slot.
- `SkuExamples` (`sku_examples.dfy`): the catalog Color {Red, Blue} × Size {S, M} with SKUs V1 = Red+S, V2 = Red+M, V3 = Blue+S, worked through the class.
  - After selecting Blue, M is disabled and S and Red are not; after also selecting S, the selected SKU is V3.
  - A second catalog shows where the code's disabled test departs from a per-group reading.

Three behaviours of the code are worth knowing, and the model keeps each of them:

- **Disabled test.** A per-group test, checking the candidate against each other selected group's value separately, would disable more values than the code does.
  - The code (`src/index.ts:150-186`) tests the candidate against *all* selected values, its own group's included, in every iteration. It is disabled as soon as some other group holds a selection and no entry code is divisible by prime(s) * prime(v) for any selected value s, v's own selection included. A selected v therefore does not keep itself enabled: that would need prime(v)² to divide a code.
  - This is what `SkuSelection.Disabled` states.
  - `DisabledImpliesPairwiseDisabled` proves the code never disables more than the per-group test. `PairwiseReadingDisagrees` exhibits a selection where it disables less.
- **Unknown values.** The code does not reject a value that is listed in no group; see `SelectSKUProp` under "Left out".
- **Value keys.** The code keys primes by the value alone, not by (group, value). A value listed in two groups gets the prime of its last occurrence, and its group index is the first group that lists it.

## Model

| member | source | states |
|---|---|---|
| Primes.GeneratePrimes | src/utils/generatePrimes.ts:1-20 | The result has length n, every element is prime, it is strictly increasing, starts at 2 when n > 0, and skips no prime below its last element. |
| Primes.FirstPrimesUnique | src/utils/generatePrimes.ts:1-20 | Two sequences that are both "the first n primes" are equal, so the output of generatePrimes is fully determined. |
| Primes.NoSmallDivisorIsPrime | src/utils/generatePrimes.ts:7-13 | A number with no divisor i in [2, i*i <= n] is prime, which justifies stopping trial division at the square root. |
| Primes.SmallDivisorNotPrime | src/utils/generatePrimes.ts:8-10 | A divisor found by the inner loop shows the candidate is not prime. |
| Primes.PrimeAbove | src/utils/generatePrimes.ts:5-17 | Above every m there is a prime no larger than m! + 1, so the outer loop always finds the next prime. |
| SkuIndex.Flatten | src/index.ts:71-77 | The concatenated prop list holds exactly the values that some group lists. |
| SkuIndex.FlattenLength | src/index.ts:71-78 | The flattened list has exactly one entry per (group, value) occurrence, the sum of the group sizes, which is the count handed to generatePrimes. |
| SkuIndex.FlattenAt | src/index.ts:71-77 | Value i of group g sits at position (length of the earlier groups' flattened list) + i. |
| SkuIndex.FlattenCovers | src/index.ts:71-77 | Conversely, every position of the flattened list is value i of some group g at that offset, so there are no other entries. |
| SkuIndex.LastIndexOf | src/index.ts:80-85 | The position of the last occurrence of a value, the one whose prime Object.fromEntries keeps. |
| SkuIndex.FromEntries | src/index.ts:80-85 | The keys are exactly the props, and each maps to the prime paired with its last occurrence. |
| SkuIndex.BuildPrimeBySKUPropValue | src/index.ts:64-86 | A value is mapped iff some group lists it, and gets primes[k] for its last flattened position k. |
| SkuIndex.DistinctPropsGetOwnPrime | src/index.ts:78-85 | With pairwise distinct props, the k-th flattened prop gets exactly primes[k]. |
| SkuIndex.PrimeMapInjective | src/index.ts:78-85 | With strictly increasing primes, distinct values get distinct primes, even when a value is repeated. |
| SkuIndex.PrimeMapIsPrimeValued | src/index.ts:78-85 | Every prime in the map is prime when the generated list is. |
| SkuIndex.PrimesProduct | src/index.ts:95-101 | The `reduce` of the mapped primes starting at 1: 1 for no values and the value's own prime for one value; its other properties are the Product lemmas below. |
| SkuIndex.BuildSKUIdPrimesProductEntries | src/index.ts:88-105 | One entry per SKU in SKU order, pairing the SKU's id with the product of its values' primes. |
| SkuIndex.ProductConcat | src/index.ts:95-101 | The product over a concatenation is the product of the two products. |
| SkuIndex.ProductRemoveAt | src/index.ts:95-101 | Removing one value divides its prime out of the product. |
| SkuIndex.ProductPermutation | src/index.ts:95-101 | Two value lists with the same multiset have the same product, so a code does not depend on value order. |
| SkuIndex.ProductDivisibleByMember | src/index.ts:95-101 | The prime of each value divides the product. |
| SkuIndex.ProductDivisibleByPair | src/index.ts:95-101 | The product of the primes of two values at different positions divides the product. |
| SkuIndex.ProductIsOneIffEmpty | src/index.ts:95-101 | With prime values, the product is at least 1, and it is 1 exactly for an SKU without values. |
| SkuIndex.BuildPrimeGroups | src/index.ts:107-119 | One list per group, as long as that group, holding the mapped prime of each value in order. |
| SkuIndex.PrimeGroupsAreGroupMajor | src/index.ts:107-119 | With distinct values, value i of group g gets primes[o + i], where o is the length of the earlier groups' flattened list (their occurrence count, by FlattenLength). |
| SkuIndex.IndexOfGroupContaining | src/index.ts:130-133 | The first group whose list holds the prime, or -1 when none does. |
| SkuIndex.FindGroupIndexOfSKUProp | src/index.ts:129-134 | Between -1 and the number of groups; non-negative iff the value is mapped and some group holds its prime, and then it is the first such group. |
| SkuIndex.GroupIndexIsFirstGroupOfValue | src/index.ts:129-134 | On the built index, a value's group index is the first group listing the value, and -1 exactly when no group lists it. |
| SkuSelection.SelectedValues | src/index.ts:122-123 | The values of the non-empty slots: a value is listed iff some slot holds it. |
| SkuSelection.SelectedValuesCount | src/index.ts:122-123 | The filtered list has one entry per non-empty slot (the slots minus the empty ones), so with distinct selected values it is fixed up to order. |
| SkuSelection.SelectedProduct | src/index.ts:121-127 | The selected product is at least 1, is 1 iff every slot is empty, and each selected value's prime divides it. |
| SkuSelection.Toggled | src/index.ts:189-198 | The length is kept; slot g becomes empty iff v is selected in any slot and otherwise holds v; every other slot is unchanged. |
| SkuSelection.ToggleKeepsPlacement | src/index.ts:189-198 | Toggling a value in its own group's slot keeps every selected value in its own group's slot. |
| SkuSelection.ToggleTwice | src/index.ts:189-198 | Toggling v twice restores the selection iff v's slot was empty or held v; otherwise the slot ends up empty. |
| SkuSelection.ToggleReplacesWithinGroup | src/index.ts:189-198 | Toggling v1 and then another value v2 of the same group leaves v2 in the slot and every other slot as it was. |
| SkuSelection.Compatible | src/index.ts:170-178 | A selected value and a candidate pass the divisibility test only if both are mapped and some SKU code is divisible by each of their primes. |
| SkuSelection.Disabled | src/index.ts:148-187 | Disabled iff some group other than the candidate's is selected and no selected slot's value passes the divisibility test with the candidate. |
| SkuSelection.OwnGroupNeverDisables | src/index.ts:159-168 | With no selection outside v's group, v is not disabled. |
| SkuSelection.DisabledImpliesPairwiseDisabled | src/index.ts:150-186 | A value the code disables is also disabled by the per-group reading (some other group's value shares no SKU with it). |
| SkuSelection.SharedSkuKeepsEnabled | src/index.ts:170-178 | A value that appears in an SKU together with some selected value is never disabled. |
| SkuSelection.FindSkuIdByCode | src/index.ts:202-205 | The id of the first entry whose code equals the product, and None iff no entry has that code. |
| SkuSelection.FindSkuById | src/index.ts:207-211 | The first SKU with the given id, and None iff no SKU has it. |
| SkuSelection.ResolveSku | src/index.ts:200-212 | An SKU is found iff some entry has the code; it has the id of the first entry with that code, and it is the first SKU in the catalog with that id. |
| SkuSelect.EmptySlots | src/index.ts:61 | A fresh array with one empty slot per group. |
| SkuSelect.SKUSelect.constructor | src/index.ts:50-62 | The class invariant holds, the primes are the first n primes, n being the number of (group, value) occurrences, every slot is empty, and the selected product is 1. |
| SkuSelect.SKUSelect.GetSelectedPrimesProduct | src/index.ts:121-127 | At least 1, exactly 1 when no slot is selected, and divisible by the prime of every selected value. |
| SkuSelect.SKUSelect.CheckIsSKUPropSelected | src/index.ts:144-146 | True iff some slot holds the value, in which case its own group's slot holds it. |
| SkuSelect.SKUSelect.CheckIsSKUPropDisabled | src/index.ts:148-187 | The loop's answer equals Disabled: some other group is selected and no entry code is divisible by prime(s) * prime(v) for any selected s, v's own selection included. |
| SkuSelect.SKUSelect.SelectSKUProp | src/index.ts:189-198 | Slot g of the value is cleared if the value is selected anywhere and set to it otherwise; all other slots are unchanged and the class invariant is kept. |
| SkuSelect.SKUSelect.GetSelectedSKU | src/index.ts:200-212 | An SKU is returned iff some entry's code equals the selected product; it carries the id of the first such entry and is the first SKU with that id. |
| SkuSelect.SKUSelect.SelectingSkuValuesResolves | src/index.ts:200-212 | Selecting exactly SKU i's values (in any slot order) makes the product SKU i's code and resolves an SKU; SKU i itself when no earlier SKU shares its code or id. |
| SkuSelect.SKUSelect.EmptySelectionResolvesOnlyValuelessSku | src/index.ts:200-212 | With nothing selected, an SKU is resolved iff the catalog has an SKU without values. |
| SkuExamples.FirstSixPrimes | src/utils/generatePrimes.ts:1-20 | 2, 3, 5, 7, 11, 13 are exactly the first six primes. |
| SkuExamples.FourPrimes | src/utils/generatePrimes.ts:1-20 | Any "first four primes" result is [2, 3, 5, 7]. |
| SkuExamples.TwoByTwoPrimeMap | src/index.ts:64-86 | Two groups of two values get the primes 2, 3, 5, 7 in group-major order. |
| SkuExamples.ColorSizeEntries | src/index.ts:88-105 | On the color/size catalog the codes are V1 = 10, V2 = 14, V3 = 15. |
| SkuExamples.ColorSizePrimeGroups | src/index.ts:107-119 | On the color/size catalog the prime groups are [[2, 3], [5, 7]]. |
| SkuExamples.ColorSizeIndexed | src/index.ts:50-62 | The constructor's index on the color/size catalog is that prime map, those entries and those prime groups. |
| SkuExamples.BlueSelected | src/index.ts:148-187 | With Blue selected, M is disabled while S and Red are not. |
| SkuExamples.SelectBlue | src/index.ts:148-198 | After selecting Blue on the class, CheckIsSKUPropDisabled answers true for M and false for S and Red. |
| SkuExamples.SelectSmall | src/index.ts:189-212 | Selecting S after Blue makes GetSelectedSKU return V3. |
| SkuExamples.ColorSizeScenario | src/index.ts:50-212 | Constructing, selecting Blue and then S resolves V3. |
| SkuExamples.MaterialPrimeMap | src/index.ts:64-86 | Three groups of two values handed the first six primes get 2, 3, 5, 7, 11, 13 in group-major order. |
| SkuExamples.MaterialGroupIndexOfSmall | src/index.ts:107-134 | On the material catalog, the built prime groups put S in group 1. |
| SkuExamples.PairwiseReadingDisagrees | src/index.ts:150-186 | With Red and Wool selected, and S's group index taken from the built prime groups, S shares no SKU with Wool, yet the code leaves S enabled because it shares one with Red. |

## Left out

- The accessor options `getSKUPropsOfGroup`, `getSKUPropValuesOfSKU`, `skuIdKey` and `skuPropValueKey` are left out. Groups are given as lists of values, and SKUs as an id plus a list of values.
- JavaScript numbers are not modelled. Codes and products are unbounded `nat`, so products above 2^53 do not lose precision.
- `Math.sqrt` is not modelled as a floating-point call. The bound `i <= Math.sqrt(currentNum)` is modelled as `i * i <= currentNum`.
- Object key stringification in `Object.fromEntries` is left out. Values are `Str`/`Num` scalars compared by equality, so `1` and `"1"` stay distinct keys, whereas they collide in JavaScript.
- SKUs that use a value listed in no group are excluded by the constructor's precondition. The source computes a `NaN` code for such an SKU.
- SkuSelect.SKUSelect.SelectSKUProp: requires the value to be listed in some group. For an unknown value the source's `splice(-1, 1, x)` overwrites the last slot, or adds a slot when there are no groups.
- SkuSelect.SKUSelect.GetSelectedSKU: SKU ids are always present, so the source's match between an `undefined` id (no entry matched) and an SKU without an id is not modelled.
- `mapSKUPropValuesToPrimes` (`src/index.ts:136-142`) has no member of its own. The map lookup it performs is part of `SkuSelection.Compatible`.
- The converse of `SharedSkuKeepsEnabled` is not proved: "a code divisible by two values' primes means an SKU holds both values" needs unique factorisation.
- SkuSelect.SKUSelect.GetSelectedPrimesProduct: requires the class invariant `Valid()`, so that every selected value has a prime. The class maintains this invariant from construction on.
- SkuSelect.SKUSelect.CheckIsSKUPropSelected: requires the class invariant `Valid()` for the same reason.
