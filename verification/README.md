# Verified models of the indexed programs' pricing, configuration and build logic

The repository collects on-chain programs together with the tools that price, configure and package
them. This project models the parts of it that compute something, as executable Dafny, and proves what
those computations mean.

| module | what it models |
|---|---|
| `FloorRoot`, `InitialPrice`, `InitialLiquidity` | the starting price of a Meteora DAMM pool: a quadratic solved on 256-bit words, the price and liquidity of a compounding pool, and what opening a pool at these prices asks for |
| `OfferVectors`, `OfferPricing`, `OfferLaws` | ONRE offers: ten slots of price schedules cleaned in place, the stepwise price, the fee and the conversion |
| `ConfigDiff` | the difference between a local and a remote NTT deployment configuration |
| `LimitFormatting`, `LimitLaws`, `InboundLimits`, `InboundRepair`, `DialogueLaws` | NTT token limits as decimal strings; finding chain pairs without an inbound limit and asking for the missing ones |
| `SnakeCase`, `IdlTypes`, `IdlRewriting`, `Reachability`, `IdlDistill`, `IdlMeaning`, `IdlShape`, `IdlOutput`, `KaminoDistill` | the scripts that reduce an IDL to the instructions that are called and the types these need |
| `IgnoredPaths` | validating and reducing the ignore list of a repository, and deleting what it names |
| `Outcomes`, `Arithmetic`, `Sets` | shared result types, word sizes, and facts about integer division, powers of ten and set sizes |

`dafny verify dfyconfig.toml` verifies everything.

## What the proofs say

**Initial price.** The concentrated price is the floor of the positive root of one signed quadratic, in
both branches, exactly when the discriminant is below 2^256 (`CorrectIffDiscriminantFits`). The code never
checks this. When the discriminant is too large, the first branch gives no price and the second one gives
a price that is too low, and in fact below the range; there is an input for each (`FirstBranchWraps`,
`SecondBranchWraps`). So a returned price lies in the range exactly when the discriminant fits
(`ReturnedPriceInRangeIff`). Lower bounds below 2^127 with upper bounds from 2^65 on make
it fit for every deposit, and then the returned price is in the range and within one unit of the solution of
the documented equation over the reals (`ReturnedPriceIsRight`). A pool opened at that price never asks for
more than the deposit and takes one of the two deposits to the last unit; what is left of the other one is
bounded (`ConcentratedCoveredByDeposit`). It can be opened exactly for inputs that meet one inequality
(`OpensIff`). Otherwise the price is at or below the lower bound, which panics (`OpeningAtLowerBoundPanics`), or
the liquidity does not fit 128 bits (`LargestDepositsDoNotOpen`). The compounding result is refused only for the price range, and the pool's own formulas for the
amounts it asks for never exceed the deposit it was computed from, of which at most one unit of token B is
not taken.

**Offers.** Over every run of clock advances and insertions of fresh starts, the self-cleaning array of ten
slots names the same active and the same previous vector, at every time from now on, as a log that never
deletes anything (`EveryRunRefinesLog`). An insertion of any start, stored already or not,
keeps that up exactly when no other vector of that start, kept by cleaning, lies behind the slot that is filled
(`InsertionAgreesIff`); `DuplicateStartDiverges` is a run after which a reused start does not. The program's input check refuses such an insertion. Whether cleaning leaves a slot
is characterised exactly (`FreeSlotIff`). Prices and purchases are given in plain numbers (`PriceExact`,
`ConversionGives`). Prices never fall, so waiting never buys more, and splitting a
purchase is bounded from both sides.

**Configuration.** Applying a difference merges the two sides: every path reached by the comparison becomes
local, and every frozen path stays remote (`ApplyMerges`). An excluded top-level key, the only
kind the commands use, is never written (`TopLevelExclusionIsKept`). A dotted exclusion protects less: when a
whole subtree is pushed because one side has no object there, what is excluded inside it is pushed too
(`PushedSubtreeOverwritesExcluded`). `RemoteKeptIff` says exactly which paths keep their remote value, and
`ExcludedIsKept` that an excluded path below objects on both sides is always among them. Limits survive
printing and reading. A dialogue about missing inbound limits is specified write by write; every written limit
is found at its pair in the end, no expected limit is missing when all is answered (`DialogueCompletes`), and
collecting again lists exactly the pairs answered with zero.

**Distillation.** The output is told entry by entry from the input (`DistilledExactly`): the called instructions,
and the definitions to which a chain of references leads from their arguments. The worklist computes the least set of types closed under mentions, cyclic graphs
included; rewriting is idempotent and does not disturb what is mentioned; so distilling twice is distilling
once for the Drift and JupLend script. The Kamino script renames accounts before it normalises their names,
and is idempotent exactly when no kept v2 instruction has an account whose name only becomes
`farms_accounts` by the normalisation (`KaminoIdempotentIff`); `DashedNameBreaksIdempotence` is an IDL that has one.

**Ignore lists.** The reduced list is an antichain under "lies at or above", covers every listed path,
depends only on the set of listed paths, and deletes exactly the same tree.

## Model

| member | source | states |
|---|---|---|
| `FloorRoot.SqrtU256` | programs/damm-v2/programs/cp-amm/src/math/utils_math.rs:78-100 | the digit-by-digit loop returns the floor square root of every 256-bit word; no checked operation fails, the shifts that refuse to lose a bit included |
| `FloorRoot.Isqrt` | programs/damm-v2/programs/cp-amm/src/math/utils_math.rs:78-100 | the reference: `r * r <= n < (r + 1) * (r + 1)` |
| `FloorRoot.RootUnique` | programs/damm-v2/programs/cp-amm/src/math/utils_math.rs:78-100 | no other number has that property |
| `FloorRoot.RootBounds` | programs/damm-v2/programs/cp-amm/src/math/utils_math.rs:78-100 | comparing with the root is comparing squares |
| `FloorRoot.DigitStep` | programs/damm-v2/programs/cp-amm/src/math/utils_math.rs:87-97 | taking the trial digit exactly when it fits keeps the partial root, the cross term and the remainder right |
| `FloorRoot.TrialFits` | programs/damm-v2/programs/cp-amm/src/math/utils_math.rs:87-97 | the trial value stays below 2^256 at every digit |
| `FloorRoot.Iteration` | programs/damm-v2/programs/cp-amm/src/math/utils_math.rs:87-97 | one pass through the loop keeps the invariant or leaves the root in `result` |
| `InitialPrice.SignedRoot` | programs/damm-v2/rust-sdk/src/calculate_initial_sqrt_price.rs:7-13 | the closed formula with integer divisions is the largest `s` with `s^2 + s * slope <= ratio`, for slopes of either sign |
| `InitialPrice.UpperBranch` | programs/damm-v2/rust-sdk/src/calculate_initial_sqrt_price.rs:32-35 | the first branch is that formula modulo 2^256, and its difference does not underflow |
| `InitialPrice.LowerBranch` | programs/damm-v2/rust-sdk/src/calculate_initial_sqrt_price.rs:36-40 | the second branch is the same formula with the sign turned round, and its difference does not underflow |
| `InitialPrice.ConcentratedPriceExact` | programs/damm-v2/rust-sdk/src/calculate_initial_sqrt_price.rs:14-42 | the floor price when the discriminant fits; otherwise no price in the first branch and a lower one in the second |
| `InitialPrice.CorrectIffDiscriminantFits` | programs/damm-v2/rust-sdk/src/calculate_initial_sqrt_price.rs:14-42 | the floor price comes out if and only if the discriminant is below 2^256 |
| `InitialPrice.ConcentratedEdgeCases` | programs/damm-v2/rust-sdk/src/calculate_initial_sqrt_price.rs:20-33 | a zero deposit has no price; the only panic is an upper bound of zero |
| `InitialPrice.UpperWrapped` | programs/damm-v2/rust-sdk/src/calculate_initial_sqrt_price.rs:32-41 | a wrapped discriminant makes the later subtraction wrap, so the conversion to 128 bits fails |
| `InitialPrice.LowerWrapped` | programs/damm-v2/rust-sdk/src/calculate_initial_sqrt_price.rs:36-41 | a wrapped discriminant goes unnoticed and gives a price that is too low |
| `InitialPrice.RangeRulesOutWrapping` | programs/damm-v2/rust-sdk/src/calculate_initial_sqrt_price.rs:24-41 | a lower bound below 2^127 and an upper one from 2^65 on keep every discriminant in the word |
| `InitialPrice.FloorPriceInRange` | programs/damm-v2/rust-sdk/src/calculate_initial_sqrt_price.rs:7-13 | for ordered bounds the floor of the solution is at least the lower and below the upper one; this is about the solution, not yet about what the code returns |
| `InitialPrice.WithinOneOfRealSolution` | programs/damm-v2/rust-sdk/src/calculate_initial_sqrt_price.rs:7-13 | the floor of the integer equation is within one unit of the positive solution of the documented equation over the reals |
| `InitialPrice.ReturnedPriceInRangeIff` | programs/damm-v2/rust-sdk/src/calculate_initial_sqrt_price.rs:14-42 | a price the code returns lies in the range if and only if the discriminant fits; otherwise it is always below the range |
| `InitialPrice.SecondBranchWraps` | programs/damm-v2/rust-sdk/src/calculate_initial_sqrt_price.rs:36-41 | an input for which it wraps: 2^127 is returned for a range that starts at 2^128 - 3 |
| `InitialPrice.FirstBranchWraps` | programs/damm-v2/rust-sdk/src/calculate_initial_sqrt_price.rs:32-35 | an input for which the first branch wraps: no price is returned although the equation has one |
| `InitialPrice.ReturnedPriceIsRight` | programs/damm-v2/rust-sdk/src/calculate_initial_sqrt_price.rs:14-42 | with a discriminant that fits, or a range within the bounds that guarantee it, the returned price is the floor price, in the range, and within one unit of the real solution |
| `InitialPrice.CompoundingRoots` | programs/damm-v2/rust-sdk/src/calculate_initial_sqrt_price.rs:48-67 | the price rounded up and the one rounded down differ by at most one, and their product never exceeds the deposit ratio |
| `InitialPrice.LiquidityFits` | programs/damm-v2/rust-sdk/src/calculate_initial_sqrt_price.rs:62-68 | the liquidity product is at most (2^64 - 1) * 2^64 for all deposits, so `checked_mul` cannot fail |
| `InitialPrice.CompoundingSucceedsIff` | programs/damm-v2/rust-sdk/src/calculate_initial_sqrt_price.rs:44-71 | a result is refused only because its price is outside the allowed range; a zero deposit of token A panics |
| `InitialPrice.CompoundingCoveredByDeposit` | programs/damm-v2/rust-sdk/src/tests/test_calculate_compounding_liquidity.rs:11-39 | the amounts the pool asks for at this price and liquidity never exceed the deposit, and the rounding loss is bounded |
| `InitialPrice.CompoundingLeavesLittle` | programs/damm-v2/rust-sdk/src/tests/test_calculate_compounding_liquidity.rs:11-39 | of token B the pool takes all but at most one unit, and of token A all but what a step of the price is worth |
| `InitialPrice.InitialTokensMean` | programs/damm-v2/programs/cp-amm/src/liquidity_handler/compounding_liquidity.rs:171-183 | the amounts the pool asks for are the least that pay for the liquidity at the price |
| `InitialPrice.DemandWithinDeposit` | programs/damm-v2/programs/cp-amm/src/liquidity_handler/compounding_liquidity.rs:171-183 | rounding the demanded amounts up still stays within the deposit |
| `InitialLiquidity.LiquidityExistsIff` | programs/damm-v2/rust-sdk/src/tests/test_calculate_concentrated_initial_sqrt_price.rs:15-62 | computing the liquidity panics exactly for a price not strictly inside the range, and fails exactly when token B's liquidity needs more than 128 bits |
| `InitialLiquidity.OneSideIsTakenWhole` | programs/damm-v2/rust-sdk/src/tests/test_calculate_concentrated_initial_sqrt_price.rs:44-62 | at any price inside the range the pool never asks for more than the deposit, and takes one of the two deposits to the last unit |
| `InitialLiquidity.FloorPriceBalances` | programs/damm-v2/rust-sdk/src/calculate_initial_sqrt_price.rs:7-13 | the floor price balances the two deposits up to one step of the price, from both sides |
| `InitialLiquidity.LeftOfA` | programs/damm-v2/programs/cp-amm/src/liquidity_handler/concentrated_liquidity.rs:288-320 | when the liquidity comes from token B, what is left of token A is bounded |
| `InitialLiquidity.LeftOfB` | programs/damm-v2/programs/cp-amm/src/liquidity_handler/concentrated_liquidity.rs:324-362 | when it comes from token A, what is left of token B is bounded |
| `InitialLiquidity.ConcentratedCoveredByDeposit` | programs/damm-v2/rust-sdk/src/tests/test_calculate_concentrated_initial_sqrt_price.rs:65-121 | whenever the liquidity comes out at the price the code returns: demands within the deposit, one side taken whole, and both bounds on what is left |
| `InitialLiquidity.PriceAtLowerBoundIff` | programs/damm-v2/rust-sdk/src/calculate_initial_sqrt_price.rs:36-41 | the price is the lower bound itself exactly when the deposit ratio is below a bound computed from the inputs |
| `InitialLiquidity.OpensIff` | programs/damm-v2/rust-sdk/src/tests/test_calculate_concentrated_initial_sqrt_price.rs:15-62 | at the returned price the liquidity comes out if and only if the discriminant fits and `(pa + b + 1) * (ratio / pb + b + 1) <= ratio`; otherwise the computation panics or the cast to 128 bits fails |
| `InitialLiquidity.OpeningAtLowerBoundPanics` | programs/damm-v2/rust-sdk/src/tests/test_calculate_concentrated_initial_sqrt_price.rs:31-42 | an input for which a price comes out and opening there divides by zero |
| `InitialLiquidity.DefaultRangeNeverPanics` | programs/damm-v2/programs/cp-amm/src/constants.rs:4-10 | with the program's own price limits as range a price always comes out strictly inside it, and computing the liquidity never panics; whether it fits is said by `OpensIff` |
| `InitialLiquidity.LargestDepositsDoNotOpen` | programs/damm-v2/rust-sdk/src/tests/test_calculate_concentrated_initial_sqrt_price.rs:37-41 | with those limits and deposits of 2^64 - 1 on both sides the price comes out and the cast of the liquidity fails |
| `OfferVectors.FindActiveIsActive` | programs/onre-sol/trident-tests/fuzz_0/utility.rs:4-11 | the lookup returns a stored vector of the latest start among those that have started, or none when none has |
| `OfferVectors.ActiveUnique` | programs/onre-sol/trident-tests/fuzz_0/utility.rs:4-11 | with distinct starts that determines the vector |
| `OfferVectors.CleanKeepsLookups` | programs/onre-sol/trident-tests/fuzz_0/utility.rs:13-52 | cleaning changes no lookup from the previous vector's start onward |
| `OfferVectors.CleanTouchesOnlyOlder` | programs/onre-sol/trident-tests/fuzz_0/utility.rs:34-51 | a slot that cleaning changes started before the previous vector, and becomes empty |
| `OfferVectors.CleanIdempotent` | programs/onre-sol/trident-tests/fuzz_0/utility.rs:13-52 | cleaning a clean array changes nothing |
| `OfferVectors.EmptyingOlderKeepsActive` | programs/onre-sol/trident-tests/fuzz_0/utility.rs:34-51 | emptying any slots older than a cut only matters to lookups that find something older than the cut |
| `OfferVectors.FreeSlotIff` | programs/onre-sol/trident-tests/fuzz_0/invariants.rs:443-449 | cleaning leaves an empty slot if and only if the coming vectors and the one or two kept from the past do not fill the array |
| `OfferVectors.RoomWithSevenToCome` | programs/onre-sol/trident-tests/fuzz_0/invariants.rs:445-449 | with at most seven vectors to come the search for an empty slot succeeds |
| `OfferVectors.FirstEmpty` | programs/onre-sol/trident-tests/fuzz_0/invariants.rs:445-449 | the first empty slot, and none if and only if every slot is taken |
| `OfferVectors.InvNext` | programs/onre-sol/trident-tests/fuzz_0/invariants.rs:433-449 | every advance and every insertion keeps: the array is the log without vectors that two later started ones outdo |
| `OfferVectors.InvRun` | programs/onre-sol/trident-tests/fuzz_0/invariants.rs:433-449 | so does every run |
| `OfferVectors.ArrayRefinesLog` | programs/onre-sol/trident-tests/fuzz_0/utility.rs:4-52 | under the invariant, array and log name the same active and the same previous vector from now on |
| `OfferVectors.EveryRunRefinesLog` | programs/onre-sol/trident-tests/fuzz_0/utility.rs:4-52 | over every run from an empty array, the bounded array agrees with the unbounded log |
| `OfferVectors.InsertionAgreesIff` | programs/onre-sol/trident-tests/fuzz_0/invariants.rs:433-449 | for any start, stored or not: after an insertion array and log agree from now on if and only if no other vector of that start, kept by cleaning, lies behind the slot that was filled |
| `OfferVectors.DuplicateStartDiverges` | programs/onre-sol/programs/onreapp/src/instructions/offer/add_offer_vector.rs:203-214 | a run from the empty array after which inserting a stored start would break the agreement; the input check refuses that insertion |
| `OfferVectors.ValidIsFresh` | programs/onre-sol/programs/onreapp/src/instructions/offer/add_offer_vector.rs:187-225 | what the instruction accepts meets the conditions of the run theorem |
| `OfferVectors.AcceptedIff` | programs/onre-sol/programs/onreapp/src/instructions/offer/add_offer_vector.rs:187-225 | a vector is accepted if and only if it starts now or later and after every stored one, and has no zero where none is allowed |
| `OfferVectors.RefusedBecause` | programs/onre-sol/programs/onreapp/src/instructions/offer/add_offer_vector.rs:187-225 | which of the four errors comes out, each as an if-and-only-if |
| `OfferVectors.AcceptedBecomesActive` | programs/onre-sol/programs/onreapp/src/instructions/offer/add_offer_vector.rs:187-225 | an accepted vector is the active one from its start time on |
| `OfferVectors.Offer.constructor` | programs/onre-sol/trident-tests/fuzz_0/types.rs:4620-4928 | a new offer has ten empty slots |
| `OfferVectors.Offer.CleanOldVectors` | programs/onre-sol/trident-tests/fuzz_0/utility.rs:13-52 | the loop in place leaves the cleaned array; it panics exactly for a start time of zero at time zero |
| `OfferVectors.Offer.AddOfferVector` | programs/onre-sol/programs/onreapp/src/instructions/offer/add_offer_vector.rs:116-172 | every result of the instruction, and the array it leaves: one step of the runs, or untouched when an input is refused |
| `OfferPricing.PriceIsLinearAtStepEnd` | programs/onre-sol/trident-tests/fuzz_0/invariants.rs:196-229 | the price is the linear price at the end of the interval, and panics exactly when that leaves the words |
| `OfferLaws.PriceExact` | programs/onre-sol/trident-tests/fuzz_0/invariants.rs:196-229 | from the base time on, price * 31536000000000 is the largest such multiple that is at most base price * (31536000000000 + apr * end), where end is the next multiple of the duration after the elapsed time |
| `OfferLaws.PriceBeforeBase` | programs/onre-sol/trident-tests/fuzz_0/invariants.rs:192-194 | before the base time the price is the base price |
| `OfferLaws.PriceExistsIff` | programs/onre-sol/trident-tests/fuzz_0/invariants.rs:196-229 | there is a price if and only if the end of the interval, the product and the quotient fit their words |
| `OfferLaws.NoDurationNoPrice` | programs/onre-sol/trident-tests/fuzz_0/invariants.rs:199 | a fix duration of zero panics |
| `OfferPricing.StepEndAhead` | programs/onre-sol/trident-tests/fuzz_0/invariants.rs:198-204 | the end of the interval is a multiple of the duration, after the elapsed time, by at most one duration |
| `OfferPricing.PriceSandwich` | programs/onre-sol/trident-tests/fuzz_0/invariants.rs:181-230 | the price is at least the base price and between the linear prices now and one duration ahead |
| `OfferPricing.PriceMonotone` | programs/onre-sol/trident-tests/fuzz_0/invariants.rs:181-230 | prices never fall, across the base time too, and a price that exists later exists earlier |
| `OfferPricing.FeeNeverPanicsIff` | programs/onre-sol/trident-tests/fuzz_0/invariants.rs:149-151 | no payment makes the fee subtraction panic if and only if the fee is at most 100% |
| `OfferPricing.NetMeans` | programs/onre-sol/trident-tests/fuzz_0/invariants.rs:149-151 | the net payment is the fee's complement of the payment, rounded up |
| `OfferPricing.NetExact` | programs/onre-sol/trident-tests/fuzz_0/invariants.rs:149-151 | up to 100% neither the cast nor the subtraction loses anything |
| `OfferLaws.NetIff` | programs/onre-sol/trident-tests/fuzz_0/invariants.rs:149-151 | up to 100% the net payment is the one number that times 10000 covers the rest of the payment, by less than 10000 |
| `OfferPricing.TokenOutMonotone` | programs/onre-sol/trident-tests/fuzz_0/invariants.rs:233-262 | a dearer token gives no more, a larger payment no less |
| `OfferPricing.TokenOutExact` | programs/onre-sol/trident-tests/fuzz_0/invariants.rs:243-262 | the conversion panics exactly for a zero price, more than 38 decimals or a value out of its word, and is otherwise exact |
| `OfferLaws.ConversionSucceedsIff` | programs/onre-sol/trident-tests/fuzz_0/invariants.rs:243-262 | the conversion goes through if and only if price, decimals, both products and the result fit, in plain numbers |
| `OfferLaws.ConversionGives` | programs/onre-sol/trident-tests/fuzz_0/invariants.rs:242-262 | it gives the worth of the payment at nine price decimals in units of the price, rounded down |
| `OfferPricing.PurchaseWorthAtMostPayment` | programs/onre-sol/trident-tests/fuzz_0/invariants.rs:149-159 | what is received is worth at most the net payment, and less than one unit below it |
| `OfferPricing.WaitingNeverBuysMore` | programs/onre-sol/trident-tests/fuzz_0/invariants.rs:140-164 | while the same vector is active, a later purchase never receives more |
| `OfferPricing.SameWithinInterval` | programs/onre-sol/trident-tests/fuzz_0/invariants.rs:198-204 | while the same vector is active, purchases at any two times of one fix interval receive the same, or fail alike |
| `OfferPricing.CleaningInvisibleToBuyers` | programs/onre-sol/trident-tests/fuzz_0/invariants.rs:140-164 | after every run, a purchase against the array and one against the log give the same |
| `OfferLaws.TakeOfferConverts` | programs/onre-sol/trident-tests/fuzz_0/invariants.rs:140-164 | with a vector in force that has a price, a purchase is the conversion of the net payment at that price |
| `OfferLaws.TakeOfferPanics` | programs/onre-sol/trident-tests/fuzz_0/invariants.rs:140-147 | without a started vector, or without a price of the one in force, it panics |
| `OfferPricing.SplitNets` | programs/onre-sol/trident-tests/fuzz_0/invariants.rs:149-151 | the net payments of n parts exceed the whole's by at most n - 1 units |
| `OfferPricing.SplitOuts` | programs/onre-sol/trident-tests/fuzz_0/invariants.rs:233-262 | what n parts buy falls short of what the whole buys by at most n - 1 units |
| `OfferPricing.SplittingBounds` | programs/onre-sol/trident-tests/fuzz_0/invariants.rs:149-159 | n purchases give at most one purchase with n - 1 more net units, and at least one purchase less n - 1 units |
| `ConfigDiff.DiffObjects` | programs/native-token-transfers/cli/src/diff.ts:21-78 | the three loops compute the difference, entry by entry |
| `ConfigDiff.FillFromLocal` | programs/native-token-transfers/cli/src/diff.ts:29-54 | after the first loop exactly the local keys have their entries |
| `ConfigDiff.FillFromRemote` | programs/native-token-transfers/cli/src/diff.ts:56-66 | after the second loop the remote-only keys have theirs too |
| `ConfigDiff.PruneEmpty` | programs/native-token-transfers/cli/src/diff.ts:68-75 | the third loop removes the empty entries and nothing else |
| `ConfigDiff.DiffHasNoEmptyNested` | programs/native-token-transfers/cli/src/diff.ts:68-75 | no empty object survives at any depth |
| `ConfigDiff.SwapSides` | programs/native-token-transfers/cli/src/diff.ts:21-78 | comparing the other way round swaps push and pull everywhere and changes nothing else |
| `ConfigDiff.ApplyMerges` | programs/native-token-transfers/cli/src/diff.ts:21-78 | applied to the remote side, the difference gives local values at every path that is not frozen and keeps remote values at every one that is |
| `ConfigDiff.FrozenIff` | programs/native-token-transfers/cli/src/diff.ts:31-35 | a path is frozen if and only if it or a path above it is in the list of exclusions and reached through objects on both sides |
| `ConfigDiff.ApplyGivesLocal` | programs/native-token-transfers/cli/src/diff.ts:21-78 | with nothing excluded it gives exactly the local configuration |
| `ConfigDiff.ShapesDetermine` | programs/native-token-transfers/cli/src/diff.ts:13-15 | configurations that look the same along every path are equal |
| `ConfigDiff.EmptyIffAgree` | programs/native-token-transfers/cli/src/config-mgmt.ts:56-63 | the difference is empty if and only if the sides agree at every path that is not frozen, so returning early is right |
| `ConfigDiff.PushOnce` | programs/native-token-transfers/cli/src/config-mgmt.ts:56-63 | after a push there is nothing left to push |
| `ConfigDiff.RemoteKeptIff` | programs/native-token-transfers/cli/src/diff.ts:33-35 | a path keeps its remote value if and only if it is frozen or the sides agree there already |
| `ConfigDiff.ExcludedIsKept` | programs/native-token-transfers/cli/src/diff.ts:33-35 | an excluded dotted path below objects on both sides is never written |
| `ConfigDiff.TopLevelExclusionIsKept` | programs/native-token-transfers/cli/src/commands/shared.ts:133-135 | a top-level key in the list of exclusions, and everything below it, is never written, whatever the two sides hold |
| `ConfigDiff.PushedSubtreeOverwritesExcluded` | programs/native-token-transfers/cli/src/diff.ts:50-52 | otherwise it can be: a pushed subtree takes what is excluded inside it along |
| `ConfigDiff.PathOfJoins` | programs/native-token-transfers/cli/src/diff.ts:31 | the path compared with the exclusions is the keys with dots between them; at the top level empty keys in front vanish |
| `LimitFormatting.FormatParts` | programs/native-token-transfers/cli/src/limitFormatting.ts:1-9 | what is printed is the padded numeral with one dot before its last `decimals` characters |
| `LimitFormatting.FormatHasDecimals` | programs/native-token-transfers/cli/src/limitFormatting.ts:1-35 | every printed number passes the structural check and reports its decimals |
| `LimitFormatting.FormatRoundTrip` | programs/native-token-transfers/cli/src/validation.ts:274-281 | dropping the dots and reading the digits gives the printed number back |
| `LimitLaws.FormatMeans` | programs/native-token-transfers/cli/src/limitFormatting.ts:1-9 | a printed number is its quotient by the power of ten without spare zeros, a dot, and its remainder in exactly `decimals` digits |
| `LimitLaws.NegativePrints` | programs/native-token-transfers/cli/src/limitFormatting.ts:1-9 | a negative number is printed with its sign behind the zeros that fill it up |
| `LimitLaws.LimitMeans` | programs/native-token-transfers/cli/src/validation.ts:274-281 | dropping the dot makes a limit worth its whole part in the smallest unit, plus its fraction |
| `LimitLaws.ParseConcat` | programs/native-token-transfers/cli/src/validation.ts:274-281 | digits behind others move these up by as many places |
| `LimitLaws.DigitMeans` | programs/native-token-transfers/cli/src/validation.ts:274-281 | a digit is worth its distance from the character 0 |
| `LimitFormatting.FormatValidIff` | programs/native-token-transfers/cli/src/limitFormatting.ts:42-55 | what is printed is a valid limit if and only if the number is not negative |
| `LimitFormatting.FormatZeroIff` | programs/native-token-transfers/cli/src/limitFormatting.ts:37-40 | what is printed is a zero limit if and only if the number is zero |
| `LimitFormatting.CheckIff` | programs/native-token-transfers/cli/src/limitFormatting.ts:11-35 | the structural check accepts exactly one dot with `decimals` characters behind it, and agrees with the reported decimals |
| `LimitLaws.DecimalsIff` | programs/native-token-transfers/cli/src/limitFormatting.ts:28-35 | the reported decimals are what stands behind the one dot |
| `LimitFormatting.ValidLimitIff` | programs/native-token-transfers/cli/src/limitFormatting.ts:42-55 | valid limits are a numeral, a dot and `decimals` digits; without decimals the dot may be missing |
| `LimitFormatting.ValidLimitParts` | programs/native-token-transfers/cli/src/validation.ts:274-281 | a valid limit without its dots is a numeral, so reading it cannot fail |
| `LimitFormatting.ValidZeroIff` | programs/native-token-transfers/cli/src/limitFormatting.ts:37-40 | a valid limit is a zero limit if and only if it is worth nothing |
| `LimitLaws.ZeroLimitIff` | programs/native-token-transfers/cli/src/limitFormatting.ts:37-40 | a string is a zero limit if and only if it is made of dots and zeros with at least one zero, malformed ones included |
| `LimitFormatting.PrintBackIff` | programs/native-token-transfers/cli/src/limitFormatting.ts:1-9 | printing a valid limit's value gives the same string if and only if it has its dot and no spare leading zero |
| `InboundLimits.CollectPairs` | programs/native-token-transfers/cli/src/limits.ts:37-79 | the nested loops fill one group for every destination that misses a source |
| `InboundLimits.CollectSources` | programs/native-token-transfers/cli/src/limits.ts:55-78 | the inner loop adds the missing sources of one destination, one at a time, to one group |
| `InboundLimits.CollectorListsMissing` | programs/native-token-transfers/cli/src/limits.ts:20-84 | every eligible ordered pair with a missing or zero inbound limit is listed, once, and nothing else |
| `InboundLimits.OutboundIff` | programs/native-token-transfers/cli/src/limits.ts:38-45 | what counts as an outbound limit, told by the entries of the configuration |
| `InboundLimits.InboundIff` | programs/native-token-transfers/cli/src/limits.ts:63 | what counts as an inbound limit |
| `InboundLimits.SortByIsSortedPermutation` | programs/native-token-transfers/cli/src/limits.ts:81-83 | sorting permutes the groups into order |
| `InboundLimits.SortKeepsListsOnce` | programs/native-token-transfers/cli/src/limits.ts:81-83 | sorted, every pair is still listed once |
| `InboundRepair.SetInboundMeans` | programs/native-token-transfers/cli/src/limits.ts:87-105 | writing a limit changes that one entry, and gives a destination without limits the placeholder outbound limit |
| `DialogueLaws.AnswerMeans` | programs/native-token-transfers/cli/src/limits.ts:182-189 | whatever white space is around it, an empty answer is the default, 0 is a valid zero limit, and anything else is taken as it is |
| `InboundRepair.RepairThenCollect` | programs/native-token-transfers/cli/src/limits.ts:221-233 | once every listed pair has a limit, collecting again lists exactly the pairs set to zero |
| `InboundRepair.Deployment.CollectMissingInboundGroups` | programs/native-token-transfers/cli/src/limits.ts:20-84 | the sorted groups; it throws exactly when a name is no known chain |
| `InboundRepair.Deployment.SetInboundLimit` | programs/native-token-transfers/cli/src/limits.ts:87-105 | that one inbound limit is found afterwards, every other one and every outbound limit is as before, but for the placeholder of a destination without limits |
| `InboundRepair.Deployment.ApplyDefault` | programs/native-token-transfers/cli/src/limits.ts:163-174 | every source of the group has the default written, in order, and nothing else is written |
| `InboundRepair.Deployment.AskForSources` | programs/native-token-transfers/cli/src/limits.ts:175-201 | each source gets the next valid answer; invalid ones are skipped; it is cut short exactly when there are fewer valid answers than sources |
| `InboundRepair.Deployment.ApplyGroup` | programs/native-token-transfers/cli/src/limits.ts:159-201 | a group gets its default everywhere or one valid answer a source, in sorted order, and leaves the rest of the input |
| `InboundRepair.Deployment.ApplyInboundGroups` | programs/native-token-transfers/cli/src/limits.ts:124-205 | which of the three ways it ends, and exactly the writes of the dialogue; skipping the prompts writes nothing |
| `InboundRepair.NextAnswer` | programs/native-token-transfers/cli/src/limits.ts:176-199 | the loop stops at the first valid answer, and leaves the input after it |
| `InboundRepair.WritesRepair` | programs/native-token-transfers/cli/src/limits.ts:124-205 | acceptable writes give every written pair an acceptable limit and change nothing else, outbound limits included |
| `InboundRepair.AllWritesMean` | programs/native-token-transfers/cli/src/limits.ts:124-205 | a dialogue writes only listed pairs, each time the default or a valid limit; all of them once everything is answered |
| `InboundRepair.AllWritesOnce` | programs/native-token-transfers/cli/src/limits.ts:138-202 | no pair is written twice |
| `InboundRepair.WriteHolds` | programs/native-token-transfers/cli/src/limits.ts:87-105 | a limit written once is the one found afterwards, whatever else is written |
| `InboundRepair.DialogueSetsAnswers` | programs/native-token-transfers/cli/src/limits.ts:124-205 | every limit a dialogue writes is found at its pair in the end |
| `InboundRepair.DialogueRepairs` | programs/native-token-transfers/cli/src/limits.ts:221-233 | whatever the answers, only listed inbound limits change; and answered to the end, collecting again lists exactly the pairs set to zero |
| `InboundRepair.DialogueCompletes` | programs/native-token-transfers/cli/src/limits.ts:221-233 | answered to the end, no pair of distinct chains lacks an inbound limit when its destination has a well-formed outbound limit and the new chain, if any, is one of the two |
| `DialogueLaws.AnswerCounts` | programs/native-token-transfers/cli/src/limits.ts:176-199 | an answer counts if and only if it is a valid limit, and in its place |
| `DialogueLaws.LinesUsed` | programs/native-token-transfers/cli/src/limits.ts:176-199 | no more of the input is used than it takes: the last line used is a valid answer |
| `DialogueLaws.GroupWritesInOrder` | programs/native-token-transfers/cli/src/limits.ts:163-201 | the sources of a group are gone through in order, each with the default or the next valid answer |
| `DialogueLaws.DoneIffAllWritten` | programs/native-token-transfers/cli/src/limits.ts:138-204 | a dialogue is done if and only if it has written as many limits as pairs are listed |
| `InboundRepair.TrimKeeps` | programs/native-token-transfers/cli/src/limits.ts:182-184 | only white space at the ends of an answer is lost |
| `InboundRepair.TrimmedEnds` | programs/native-token-transfers/cli/src/limits.ts:182-184 | and none is left there |
| `DialogueLaws.WhiteCharacters` | programs/native-token-transfers/cli/src/limits.ts:182-184 | the 25 code points that are trimmed |
| `InboundRepair.Deployment.ConfigureInboundLimits` | programs/native-token-transfers/cli/src/limits.ts:208-233 | collect and repair as a whole: how it ends, what is written, what stays, what collecting again lists, and that no expected limit is missing afterwards |
| `Reachability.ClosureIsLeast` | programs/marginfi-v2/scripts/distill_drift_juplend_macro_idl.py:270-281 | the reachable names are the least set that holds the roots and is closed under mentions |
| `Reachability.LeastClosedIsClosure` | programs/marginfi-v2/scripts/distill_drift_juplend_macro_idl.py:270-281 | whatever the order of the worklist, a closed set between the roots and the reachable names is all of them |
| `Reachability.ClosureOfRestriction` | programs/marginfi-v2/scripts/distill_drift_juplend_macro_idl.py:283-286 | forgetting what is not reached does not change what is reached |
| `Reachability.FrontierStep` | programs/marginfi-v2/scripts/distill_drift_juplend_macro_idl.py:270-281 | one worklist step keeps: what is not waiting has its mentions among the needed names |
| `Reachability.Progress` | programs/marginfi-v2/scripts/distill_drift_juplend_macro_idl.py:270-281 | a step adds a new name or nothing, so cyclic graphs end too |
| `Reachability.AddNew` | programs/marginfi-v2/scripts/distill_drift_juplend_macro_idl.py:278-281 | the unseen dependencies become needed and are queued; seen ones are not queued again |
| `SnakeCase.SnakeIdempotent` | programs/marginfi-v2/scripts/distill_drift_juplend_macro_idl.py:50-54 | converting an ASCII name twice is converting it once |
| `SnakeCase.SnakeIsSnake` | programs/marginfi-v2/scripts/distill_drift_juplend_macro_idl.py:50-54 | the result has neither ASCII capitals nor dashes |
| `SnakeCase.SnakeKeepsLetters` | programs/marginfi-v2/scripts/distill_drift_juplend_macro_idl.py:50-54 | only the case of ASCII letters and separators change |
| `SnakeCase.CamelRoundTrip` | programs/marginfi-v2/scripts/distill_drift_juplend_macro_idl.py:50-54 | a camel-case name comes out as its words with underscores between them |
| `SnakeCase.PascalRoundTrip` | programs/marginfi-v2/scripts/distill_drift_juplend_macro_idl.py:50-54 | so does a name that starts with a capital, with no underscore in front |
| `SnakeCase.SeparatedNames` | programs/marginfi-v2/scripts/distill_drift_juplend_macro_idl.py:50-54 | a name with a separator keeps its length: dashes become underscores, capitals small letters, and no underscore is put in |
| `IdlTypes.CanonSpecIdempotent` | programs/marginfi-v2/scripts/distill_drift_juplend_macro_idl.py:74-100 | rewriting a type specification twice is rewriting it once |
| `IdlTypes.CanonSpecIsModern` | programs/marginfi-v2/scripts/distill_drift_juplend_macro_idl.py:74-100 | the result has the modern form wherever the rewriting looks, and a specification is left alone if and only if it has it already |
| `IdlTypes.CanonSpecKeepsMentions` | programs/marginfi-v2/scripts/distill_drift_juplend_macro_idl.py:184-202 | rewriting does not change which defined types are mentioned |
| `IdlMeaning.MentionsIff` | programs/marginfi-v2/scripts/distill_drift_juplend_macro_idl.py:61-71 | a type is mentioned if and only if some part, reached through `option`, `vec`, the first item of `array` or an item of `tuple`, refers to it by name |
| `IdlShape.SpecRewrittenAt` | programs/marginfi-v2/scripts/distill_drift_juplend_macro_idl.py:74-100 | at every such place the specification is rewritten, `publicKey` to `pubkey` and a string reference to a dictionary, and nothing else changes |
| `IdlTypes.CanonTypeDefLaws` | programs/marginfi-v2/scripts/distill_drift_juplend_macro_idl.py:103-129 | rewriting a definition is idempotent, keeps its name and its dependencies |
| `IdlTypes.CanonTypeDefIsModern` | programs/marginfi-v2/scripts/distill_drift_juplend_macro_idl.py:103-129 | the same for definitions, whose bare string fields count as modern whatever they say |
| `IdlMeaning.DependsIff` | programs/marginfi-v2/scripts/distill_drift_juplend_macro_idl.py:204-227 | a definition depends on a type if and only if a field of its struct or of a variant refers to it |
| `IdlShape.DefRewritten` | programs/marginfi-v2/scripts/distill_drift_juplend_macro_idl.py:103-129 | which parts of a definition are rewritten, by kind, and that every other entry stays |
| `IdlShape.FieldRewritten` | programs/marginfi-v2/scripts/distill_drift_juplend_macro_idl.py:108-116 | which part of a field is rewritten |
| `IdlRewriting.CanonicalizeTypeSpec` | programs/marginfi-v2/scripts/distill_drift_juplend_macro_idl.py:74-100 | the key-by-key updates give the rewritten specification, and no key overwrites another's result |
| `IdlRewriting.CanonicalizeFields` | programs/marginfi-v2/scripts/distill_drift_juplend_macro_idl.py:108-116 | the loop over fields gives the rewritten field list; bare strings are left alone |
| `IdlRewriting.CanonicalizeTypeDef` | programs/marginfi-v2/scripts/distill_drift_juplend_macro_idl.py:103-129 | the loops over fields and variants give the rewritten definition |
| `IdlRewriting.CollectFromTypeSpec` | programs/marginfi-v2/scripts/distill_drift_juplend_macro_idl.py:184-202 | the collected set grows by exactly the mentioned types |
| `IdlRewriting.CollectFromFields` | programs/marginfi-v2/scripts/distill_drift_juplend_macro_idl.py:204-212 | the same over a field list |
| `IdlRewriting.CollectTypeDependencies` | programs/marginfi-v2/scripts/distill_drift_juplend_macro_idl.py:214-227 | the same over a struct's fields or an enum's variants |
| `IdlDistill.NormalizeAccountNames` | programs/marginfi-v2/scripts/distill_drift_juplend_macro_idl.py:132-154 | the loop normalises every account at every depth |
| `IdlShape.AccountsNormalizedAt` | programs/marginfi-v2/scripts/distill_drift_juplend_macro_idl.py:132-154 | at every depth: old flags gone, new ones kept or derived from the truth of the old, the name in snake case, everything else as before |
| `IdlShape.NestedAccountsAt` | programs/marginfi-v2/scripts/distill_drift_juplend_macro_idl.py:153-154 | nested accounts are normalised, and only where there are some |
| `IdlShape.AccountsKeepPlaces` | programs/marginfi-v2/scripts/distill_drift_juplend_macro_idl.py:132-137 | a list of accounts keeps its length and what is no dictionary in it, and anything but a list is left alone |
| `IdlShape.TruthyIff` | programs/marginfi-v2/scripts/distill_drift_juplend_macro_idl.py:143-147 | what counts as false: null, false, zero, and the empty string, list and dictionary |
| `IdlDistill.NormalizeAccountsIdempotent` | programs/marginfi-v2/scripts/distill_drift_juplend_macro_idl.py:132-154 | normalising accounts twice is normalising them once |
| `IdlDistill.CanonicalizeInstructionShape` | programs/marginfi-v2/scripts/distill_drift_juplend_macro_idl.py:163-181 | the updates give the canonical instruction, or fail where looping over the arguments fails |
| `IdlShape.InstructionRewritten` | programs/marginfi-v2/scripts/distill_drift_juplend_macro_idl.py:163-181 | entry by entry: the name in snake case, accounts normalised, arguments renamed and retyped, the discriminator kept or made, everything else as before |
| `IdlShape.InstructionFailsIff` | programs/marginfi-v2/scripts/distill_drift_juplend_macro_idl.py:170 | it fails if and only if the arguments cannot be looped over |
| `IdlDistill.CanonInstructionIdempotent` | programs/marginfi-v2/scripts/distill_drift_juplend_macro_idl.py:163-181 | a canonical instruction is left alone, and its name is in snake case |
| `IdlDistill.CanonInstructionKeepsMentions` | programs/marginfi-v2/scripts/distill_drift_juplend_macro_idl.py:163-181 | its arguments mention the same types as before |
| `IdlDistill.SelectInstructions` | programs/marginfi-v2/scripts/distill_drift_juplend_macro_idl.py:230-244 | the loop keeps the named instructions in order, each rewritten |
| `IdlOutput.SelectedExactly` | programs/marginfi-v2/scripts/distill_drift_juplend_macro_idl.py:230-244 | every instruction whose snake-case name is called comes out shaped, in its place, and no other does |
| `IdlOutput.OutputNamesAreKept` | programs/marginfi-v2/scripts/distill_drift_juplend_macro_idl.py:240 | every instruction that comes out is named in the set of called names |
| `IdlShape.DriftNamesAreSnake` | programs/marginfi-v2/scripts/distill_drift_juplend_macro_idl.py:163-181 | its condition holds of the Drift and JupLend script |
| `KaminoDistill.KaminoNamesAreSnake` | programs/marginfi-v2/scripts/distill_kamino_macro_idl.py:256-271 | and of the Kamino script |
| `IdlOutput.SelectFailsIff` | programs/marginfi-v2/scripts/distill_drift_juplend_macro_idl.py:230-244 | selecting fails if and only if shaping a called instruction does |
| `IdlDistill.OutputDiscriminators` | programs/marginfi-v2/scripts/distill_drift_juplend_macro_idl.py:157-181 | every instruction that comes out has the discriminator of one that went in, or that of its snake-case name |
| `IdlDistill.CollectRoots` | programs/marginfi-v2/scripts/distill_drift_juplend_macro_idl.py:264-268 | the roots are the types mentioned by the arguments of the selected instructions |
| `IdlMeaning.RootsIff` | programs/marginfi-v2/scripts/distill_drift_juplend_macro_idl.py:264-268 | a type is a root if and only if an argument of a selected instruction refers to it |
| `IdlDistill.Saturate` | programs/marginfi-v2/scripts/distill_drift_juplend_macro_idl.py:270-281 | the worklist ends on every type graph and finds exactly the reachable names |
| `IdlDistill.PruneTypes` | programs/marginfi-v2/scripts/distill_drift_juplend_macro_idl.py:247-286 | index, worklist, filter and rewriting give the pruned definitions |
| `IdlDistill.PrunedTypesExact` | programs/marginfi-v2/scripts/distill_drift_juplend_macro_idl.py:247-286 | what survives is what is defined and reachable, in input order, each as its last definition rewritten |
| `IdlOutput.NeededIff` | programs/marginfi-v2/scripts/distill_drift_juplend_macro_idl.py:264-281 | a name is needed if and only if a chain of references leads to it from an argument, each through the last definition of its name |
| `IdlOutput.PrunedExactly` | programs/marginfi-v2/scripts/distill_drift_juplend_macro_idl.py:247-286 | every definition of a needed name comes out in its place as the last one of its name rewritten, and no other does |
| `IdlDistill.PrunedTypesClosed` | programs/marginfi-v2/scripts/distill_drift_juplend_macro_idl.py:247-286 | no surviving definition mentions a dropped one |
| `IdlDistill.PruneTwice` | programs/marginfi-v2/scripts/distill_drift_juplend_macro_idl.py:247-286 | pruning what was pruned changes nothing |
| `IdlDistill.DistillIdl` | programs/marginfi-v2/scripts/distill_drift_juplend_macro_idl.py:316-328 | the pipeline: selected instructions, pruned types, emptied events and, on demand, accounts |
| `IdlOutput.DistilledExactly` | programs/marginfi-v2/scripts/distill_drift_juplend_macro_idl.py:316-328 | the output entry by entry: the called instructions, the needed definitions, no events, no accounts when dropped, everything else as before |
| `IdlOutput.DistillFailsIff` | programs/marginfi-v2/scripts/distill_drift_juplend_macro_idl.py:230-244 | it fails if and only if the instructions cannot be looped over or a called one cannot be shaped |
| `IdlDistill.DistillTwiceIff` | programs/marginfi-v2/scripts/distill_drift_juplend_macro_idl.py:316-328 | for any shape of instructions, the output is a fixed point if and only if every selected instruction is |
| `IdlDistill.DistillIdempotent` | programs/marginfi-v2/scripts/distill_drift_juplend_macro_idl.py:316-328 | the Drift and JupLend script leaves its own output alone |
| `KaminoDistill.RenameV2FarmsGroups` | programs/marginfi-v2/scripts/distill_kamino_macro_idl.py:180-201 | the loop renames the farms accounts of the two v2 instructions and nothing else |
| `KaminoDistill.FarmsAreRenamed` | programs/marginfi-v2/scripts/distill_kamino_macro_idl.py:180-201 | in a v2 instruction every account with one of the two farms names gets the name that goes with the instruction, and nothing else changes |
| `KaminoDistill.OthersAreLeftAlone` | programs/marginfi-v2/scripts/distill_kamino_macro_idl.py:180-186 | any other instruction is left as it is |
| `KaminoDistill.KaminoFailsIff` | programs/marginfi-v2/scripts/distill_kamino_macro_idl.py:194-195 | which lists that cannot be looped over make it fail |
| `KaminoDistill.KaminoFixedIff` | programs/marginfi-v2/scripts/distill_kamino_macro_idl.py:256-271 | one instruction is a fixed point after one pass if and only if none of its accounts became a farms account too late |
| `KaminoDistill.KaminoIdempotentIff` | programs/marginfi-v2/scripts/distill_kamino_macro_idl.py:316-331 | the Kamino script leaves its own output alone if and only if that holds for every kept instruction |
| `KaminoDistill.DashedNameBecomesFarms` | programs/marginfi-v2/scripts/distill_kamino_macro_idl.py:194-201 | `farms-accounts` is such a name: the rename does not look for it, the normalisation produces one it looks for |
| `KaminoDistill.DashedNameBreaksIdempotence` | programs/marginfi-v2/scripts/distill_kamino_macro_idl.py:316-331 | an IDL with one kept v2 instruction and that account is distilled, and not to a fixed point |
| `IgnoredPaths.PartsOfJoined` | scripts/build_repos.py:42-57 | taking a joined path apart gives its components back |
| `IgnoredPaths.PathsAreParts` | scripts/build_repos.py:42-57 | the names in a path are proper, and writing its root and its names out changes nothing, for absolute paths too |
| `IgnoredPaths.AbsolutePaths` | scripts/build_repos.py:42-57 | an absolute path has its root for its first component |
| `IgnoredPaths.ValidPathIff` | scripts/build_repos.py:42-49 | safe paths are relative, name something, and have no component that goes up |
| `IgnoredPaths.SortedInOrder` | scripts/build_repos.py:55 | the list is gone through by number of components, then by characters, every path included |
| `IgnoredPaths.NormalizeIgnored` | scripts/build_repos.py:52-62 | the loop keeps, in order, exactly the paths that no earlier listed path covers |
| `IgnoredPaths.ReducedIff` | scripts/build_repos.py:52-62 | a listed path is kept if and only if the listed paths at or above it are spellings of it that sort later |
| `IgnoredPaths.ReducedInOrder` | scripts/build_repos.py:55 | the kept paths stand in order of their components, then of their characters |
| `IgnoredPaths.StringLessIff` | scripts/build_repos.py:55 | characters decide at the first difference |
| `IgnoredPaths.ReducedIsAntichain` | scripts/build_repos.py:52-62 | no kept path lies at or above another |
| `IgnoredPaths.ReducedCovers` | scripts/build_repos.py:52-62 | every listed path lies at or below a kept one |
| `IgnoredPaths.ReducedDependsOnSet` | scripts/build_repos.py:52-62 | order and repetition of the input do not matter |
| `IgnoredPaths.ReducedIdempotent` | scripts/build_repos.py:52-62 | a reduced list is its own reduced list, and the only one |
| `IgnoredPaths.LoadIgnored` | scripts/build_repos.py:24-49 | an unsafe path is refused, and only that; otherwise the reduced list is loaded, all of it safe |
| `IgnoredPaths.Checkout.Remove` | scripts/build_repos.py:162-165 | a directory goes with everything in it, a file alone |
| `IgnoredPaths.Checkout.RemoveIfPresent` | scripts/build_repos.py:158-166 | one ignored path; a path that does not exist is skipped |
| `IgnoredPaths.Checkout.RemoveIgnored` | scripts/build_repos.py:156-166 | what is left is everything not at or below a listed path, and what is reported is what existed when its turn came |
| `IgnoredPaths.ReducedDeletesTheSame` | scripts/build_repos.py:156-166 | deleting the reduced list leaves exactly what deleting the whole list leaves |
| `IgnoredPaths.DeletionOrderIrrelevant` | scripts/build_repos.py:156-166 | the order of deletion does not matter |
| `IgnoredPaths.ReducedReportsExisting` | scripts/build_repos.py:156-166 | with a reduced list, what is reported is what existed at the start |
| `IgnoredPaths.ReportIff` | scripts/build_repos.py:156-166 | reported are the kept paths that existed, and no others |

## Left out

- Quote wrappers, swap curves and pool state of the liquidity programs, and the other vendored programs: the modelled files do not depend on them.
- Transactions, accounts, events, RPC, prompts, console output, hashing, git and process exits. Answers to prompts are input sequences; running out of them is the user stopping. A name's discriminator is the parameter `hash`.
- Initial price: the 256-bit type's `+`, `-` and `*` wrap and its divisions panic on zero, and both are modelled. No claim is made that the price is monotone in the amounts.
- Offers: deleting vectors, redemptions and admin checks. The transaction rollback after `TooManyVectors` is not modelled, so the array is left as cleaned. The program is built with overflow checks (programs/onre-sol/Cargo.toml:8), so `start_time - 1` panics at zero.
- OfferPricing.NetMeans: models the harness, whose fee rounds down; the program's own fee calculation rounds up.
- The harness assertion that compares the stored start time with the base time (programs/onre-sol/trident-tests/fuzz_0/invariants.rs:452-455): it contradicts the start time computed at line 433, which is what the model inserts.
- Configuration trees: key order, NaN, special property names such as `__proto__`, and configuration keys named `push` or `pull`; entries of a difference have their own constructor. Arrays compare by identity, as `===` does. `colorizeDiff` is not modelled, and applying a difference is its reference meaning, not the code that sends the pushes.
- Limits: the locale's order of names is the parameter `rank`.
- No claim is made that `publicKey` disappears from an IDL: bare string tuple fields are not rewritten, as in the scripts.
- SnakeCase.SnakeIdempotent: does not model case conversion outside ASCII, where Python's rules depend on context and can change lengths.
- SnakeCase.SnakeIsSnake: the same; capitals outside ASCII are not considered.
- SnakeCase.SnakeKeepsLetters: the same.
- IDLs: dictionaries are maps, so key order is lost. The scripts rewrite dictionaries in place, but only inside fresh deep copies, so the loops reassign map and sequence values instead of a heap. A TypeError is `None`.  The metadata and conversion steps around the pipeline are not modelled.
- Ignore lists: symbolic links and the errors of `checked_ignore_path`, the checks that the entries are lists and strings, and the logging. Strings are ordered by code unit.
