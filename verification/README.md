# Cost plugin: a verified model

The cost plugin prices metered usage with exact decimals, splits amounts over allocation keys,
and keeps rate cards, calculations and cost records in an append-only store that several
clients may write to.  This project models that logic in Dafny and proves what it promises.

Conventions of the model:

- A decimal of the released Decimal(76, 18) schema is the integer that counts its units of
  10^-18 (`Decimals`).  `DecimalText` works on decimals as sign, coefficient and exponent, and
  shows that the two views agree.
- A fingerprint, and every id derived from one, is the content it is computed from.
- Names are opaque and ordered as numbers; instants are integers.
- The store maps an identity to an immutable record and offers put-if-absent, get, and paged
  queries, as the executor in tests/conftest.py:155-240 does.
- Several clients are a state machine: a run is any sequence of their single reads, puts and
  crashes, and a read may return an older answer than the newest.

| module | about |
|---|---|
| Decimals, Sorting, Rows | units and sums; a stable sort; the rows of a resource, paging, the latest per key |
| Rounding, Pricing, PricingLaws, PriceAnswers | rounding at two scales; the five pricing models; their laws; every price in terms of the card and the quantity |
| Allocation, AllocationPrecision, AllocationLaws, AllocationQuota, AllocationOptimality, AllocationTies, AllocationAnswers | largest-remainder allocation at 100 digits: conservation, quota, fairness, optimality, and the same of the returned amounts |
| RateCards, Lifecycle, Listing, Publishing, Races, CardAnswers, Repository | rate-card snapshots, the lifecycle protocol, listing, publication, resolution, what each operation answers, and the repository class |
| Usage, Calculations | usage input and its fetch; records and their conservation |
| Persistence, Writers | writing without a transaction, crashes and reruns |
| Calculator, CalculationRuns, Replay, Billing, Calls, CalculationRepository | calculation revisions with atomic writes, replay, what stored calculations bill, the whole call, and the repository class |
| Samples | concrete inputs behind the counterexamples |
| DecimalText, Query | canonical decimal text; the two lowerings of a predicate map |

## What the proofs found

- Two clients that search for one calculation identity before either commits can store it
  twice, as revisions 1 and 2 of its series; every later call for it is then a conflict
  (`Replay.InterleavedSearchesStoreTwice`, `Samples.IdentityStoredTwice`).
  `CalculationRuns.UniqueExactly` gives the exact condition for every run,
  `CalculationRuns.IdentitiesUnique` a discipline of searches that meets it.
- Without a transaction, a calculation that stops after some records blocks every later one
  that computes other records for the same identities (`Persistence.SucceedsExactly`), and its
  records stay with a later calculation of other weights, which can then not be replayed
  (`Persistence.OrphanAfterCrash`, `Persistence.ExactUnlessOrphans`, `Samples.OrphanFound`).
- The calculator does not compare the scope of the usage it received with the scope it asked
  for, and the identity covers only the former (`Replay.IdentityDeterminesSeriesExactly`,
  `Replay.UnfaithfulReplay`, `Samples.OtherScopeAnswered`).
- Listing drafts, or all states, with a filter can return a snapshot that a later draft has
  replaced (`Listing.ReplacedDraftStillListed`, `Listing.DraftListingExactly`).
- Interleaved publications can overlap (`Races.InterleavedPublicationsOverlap`;
  `Publishing.DisjointExactly` has the exact condition for every run).
- Volume pricing can charge less for more usage at a tier boundary (`Samples.VolumePriceDrops`).
  `PricingLaws.VolumeMonotoneExactly` gives the exact condition on the final price; rounding can
  also hide a cost that falls (`Samples.RoundingHidesDrop`).
- Half rounding at two scales can differ from rounding once (`Rounding.HalfTwoStageCanDiffer`,
  `Samples.TwoStagePrice`), exactly as `Rounding.PolicyTwoStage` says.
- Beyond 10^98 the 100 digits can take two remainders for equal and serve the smaller one
  (`AllocationTies.SmallerRemainderFirst`).  `AllocationOptimality.SharesOptimalExactly` says
  exactly when, `AllocationOptimality.SharesNearlyOptimal` how little it costs.

## Model

| member | source | states |
|---|---|---|
| Rounding.RoundIsExactlySpec | src/meridian_storage/plugins/cost/models.py:103-109 | each of the four modes returns a value if and only if it is the multiple of the quantum that the mode prescribes, including ties and negative values |
| Rounding.RoundMonotone | src/meridian_storage/plugins/cost/models.py:103-109 | rounding never reverses an order, in any mode |
| Rounding.DirectedTwoStage | src/meridian_storage/plugins/cost/models.py:103-115 | rounding down (or up) twice, first finely and then coarsely, is rounding once |
| Rounding.HalfTwoStage | src/meridian_storage/plugins/cost/models.py:103-115 | with half modes, the same or not, two stages differ from one exactly when there is a false tie: the fine stage lands on a coarse tie the value was not on, or two modes at one scale decide a tie differently |
| Rounding.PolicyTwoStage | src/meridian_storage/plugins/cost/models.py:103-115 | the same for every valid policy with half modes, through both stages as the code calls them, errors included |
| Rounding.HalfTwoStageCanDiffer | src/meridian_storage/plugins/cost/models.py:103-115 | a valid policy and an amount for which the two stages do differ from one |
| Pricing.TierIsUnique | src/meridian_storage/plugins/cost/models.py:196-198 | validated tiers contain every quantity in exactly one tier, so the first-match lookup cannot fail or depend on its direction |
| Pricing.GraduatedComponents | src/meridian_storage/plugins/cost/pricing.py:101-116 | the loop with its break and continue returns the charges of the recursive specification, with the same errors |
| PricingLaws.SlicesArePerUnit | src/meridian_storage/plugins/cost/pricing.py:101-116 | weighted tier slices equal the sum over every smallest unit below the quantity of the weight of the tier that contains it |
| PricingLaws.GraduatedIsPerUnit | src/meridian_storage/plugins/cost/pricing.py:101-116 | the unrounded graduated total is the unit-by-unit price, and the consumed slices partition the quantity |
| PricingLaws.TiersAlwaysCover | src/meridian_storage/plugins/cost/pricing.py:89-116 | the "not covered" errors are unreachable for validated tiers |
| Pricing.CalculatePrice | src/meridian_storage/plugins/cost/pricing.py:119-181 | the whole pricing call, with its reassigned variables, computes the specification PriceOf, errors included; PriceAnswers says what that is |
| PriceAnswers.PriceMeans | src/meridian_storage/plugins/cost/pricing.py:119-181 | every price that is produced, field by field, in terms of card and quantity: which units are charged at which unit price, each cost rounded at the intermediate scale, their sum, what is payable for it, and the one adjustment for the difference |
| PriceAnswers.PriceSucceedsExactly | src/meridian_storage/plugins/cost/pricing.py:76-181 | a quantity can be priced if and only if every cost is a whole number of schema units, and the costs, their sum and what is payable for it fit the schema |
| PriceAnswers.CreditPrice | src/meridian_storage/plugins/cost/pricing.py:155-168 | a commitment credit comes off the amount rounded at the intermediate scale, and what it leaves is rounded once |
| Samples.CreditBeforeRounding | src/meridian_storage/plugins/cost/pricing.py:155-168 | a credit of 0.01 on 10.005 leaves 10.00; taken from the rounded amount it would leave 9.99 |
| PricingLaws.ComponentsAreExact | src/meridian_storage/plugins/cost/pricing.py:76-116 | the exact costs behind the components add up to the exact price of the model, and each component is its cost rounded at the intermediate scale |
| PricingLaws.PriceTotals | src/meridian_storage/plugins/cost/pricing.py:45-51 | amount before adjustment plus adjustments is the final amount; all amounts are non-negative, within the schema and on the currency grid |
| PricingLaws.PriceErrors | src/meridian_storage/plugins/cost/pricing.py:119-181 | pricing fails only for a negative quantity or for an amount outside the schema; every other raise is unreachable |
| PricingLaws.AdjustmentsOnlyMoveOneWay | src/meridian_storage/plugins/cost/pricing.py:144-168 | a minimum charge only raises the price, a credit only lowers it, to the rounded rest of the usage and never below zero, the other models are not adjusted |
| PricingLaws.PriceError | src/meridian_storage/plugins/cost/pricing.py:139-142 | with half modes the amount before adjustment is within half an intermediate quantum per component plus half a currency quantum of the exact price |
| PricingLaws.DirectedPriceRoundsOnce | src/meridian_storage/plugins/cost/pricing.py:139-142 | one-component pricing with the same directed mode at both stages rounds the exact price once |
| PricingLaws.HalfPriceRoundsOnceExactly | src/meridian_storage/plugins/cost/pricing.py:139-142 | one-component pricing with half modes rounds the exact price once if and only if the exact price has no false tie |
| Samples.TwoStagePrice | src/meridian_storage/plugins/cost/pricing.py:139-142 | a concrete card and quantity that is priced at 2.50 although its exact price rounded once is 2.49 |
| PricingLaws.PriceMonotone | src/meridian_storage/plugins/cost/pricing.py:119-181 | flat, graduated, minimum-charge and commitment-credit prices never fall when the quantity grows, in all modes |
| PricingLaws.VolumeMonotoneExactly | src/meridian_storage/plugins/cost/pricing.py:89-142 | the final price of a volume card never falls, over all quantities it prices and in all rounding modes, if and only if at every tier boundary the last price below is at most the first price above |
| PricingLaws.SafeCostsNeverDrop | src/meridian_storage/plugins/cost/pricing.py:89-142 | a tier table whose unrounded cost falls at no boundary never lets a price fall, under any rounding policy |
| PricingLaws.CostMonotoneExactly | src/meridian_storage/plugins/cost/pricing.py:89-98 | the unrounded cost is monotone over all quantities if and only if it falls at no boundary |
| Samples.VolumePriceDrops | src/meridian_storage/plugins/cost/pricing.py:89-98 | a concrete volume card that prices 99 units at 99.00 and 100 units at 50.00 |
| Samples.RoundingHidesDrop | src/meridian_storage/plugins/cost/pricing.py:89-142 | a concrete volume card whose cost falls at a boundary but whose price never does |
| Allocation.Place | src/meridian_storage/plugins/cost/allocation.py:151-156 | the place of the last significant digit kept at a given precision |
| AllocationPrecision.RemainingRange | src/meridian_storage/plugins/cost/allocation.py:156-158 | for every specification and every amount of the schema, the 100-digit floors leave between 0 and n units over |
| AllocationLaws.RemainingBelow | src/meridian_storage/plugins/cost/allocation.py:156-158 | and at most n - 1 while units times total weight stays below 10^98 |
| AllocationPrecision.RawExact | src/meridian_storage/plugins/cost/allocation.py:155-157 | while units times weight stays below 10^98, multiplying, dividing and flooring at 100 digits is the floor of the exact rational quota |
| AllocationPrecision.RawUnitIsDecimal | src/meridian_storage/plugins/cost/allocation.py:151-157 | for all inputs: every computed quota is the product rounded half even to 100 digits, divided and rounded again |
| AllocationPrecision.FractionOrder | src/meridian_storage/plugins/cost/allocation.py:159-166 | under the same bound, larger exact remainders have larger computed fractions |
| AllocationAnswers.HandOut | src/meridian_storage/plugins/cost/allocation.py:167-168 | the in-place loop adds one unit at exactly the chosen positions |
| AllocationAnswers.AllocateAmount | src/meridian_storage/plugins/cost/allocation.py:138-182 | succeeds if and only if the scale is valid and the total on its grid; the amounts add up, are proportional to the weights, fairly ordered, the best split, and served in order; the final sum check never fires |
| AllocationAnswers.AmountsApportion | src/meridian_storage/plugins/cost/allocation.py:138-182 | for all inputs, of the returned amounts: each is less than one quantum from total times weight over total weight, and equal to it where that is on the grid; a larger weight, or an equal one with a smaller key, never gets less in magnitude; below the bound no split on the grid deviates less |
| AllocationAnswers.AmountsServed | src/meridian_storage/plugins/cost/allocation.py:159-169 | of the returned amounts: each is its floor or one quantum more, and whoever has a larger fraction, or the same one and a smaller key, is served before |
| AllocationLaws.AllocationConserves | src/meridian_storage/plugins/cost/allocation.py:138-182 | for all inputs: refused exactly for a wrong scale or an off-grid total; otherwise the amounts add up exactly, have the sign of the total, and stay on the grid and in the schema |
| AllocationLaws.AllocationNegates | src/meridian_storage/plugins/cost/allocation.py:153-169 | negating the total negates every share |
| AllocationQuota.QuotaRule | src/meridian_storage/plugins/cost/allocation.py:155-168 | for all inputs: every share is less than one unit away from its exact quota |
| AllocationQuota.FloorOrCeiling | src/meridian_storage/plugins/cost/allocation.py:155-168 | for all inputs: every share is the floor of its exact quota, or one more when the quota is not whole |
| AllocationQuota.WholeQuotaExact | src/meridian_storage/plugins/cost/allocation.py:155-168 | for all inputs: a quota that is a whole number of units, zero included, is granted exactly |
| AllocationLaws.SharesAreLargestRemainder | src/meridian_storage/plugins/cost/allocation.py:155-168 | the shares are floors of exact quotas, plus one for the largest remainders |
| AllocationLaws.LargerWeightLargerShare | src/meridian_storage/plugins/cost/allocation.py:155-168 | for all inputs: a strictly larger weight never gets a smaller share |
| AllocationLaws.LargestRemainderOptimal | src/meridian_storage/plugins/cost/allocation.py:155-168 | a largest-remainder split, for any tie order, has the least sum of absolute deviations from the exact quotas among all integer splits with the same total |
| AllocationOptimality.SharesOptimal | src/meridian_storage/plugins/cost/allocation.py:155-168 | the computed shares have that least deviation while three times units times total weight stays below 10^99, so whenever the product is below 10^98 |
| AllocationOptimality.SharesOptimalExactly | src/meridian_storage/plugins/cost/allocation.py:155-168 | for all inputs: they have it if and only if no share is rounded up past a larger exact remainder |
| AllocationOptimality.SharesNearlyOptimal | src/meridian_storage/plugins/cost/allocation.py:155-168 | for all inputs: their deviation exceeds that of any other split by at most 3 * units / 10^99 of a unit |
| AllocationOptimality.InversionsAreTiny | src/meridian_storage/plugins/cost/allocation.py:155-168 | for all inputs: remainders that are served in the wrong order differ by at most 1.5 * units / 10^99 of a unit |
| AllocationOptimality.ApartIsOptimal | src/meridian_storage/plugins/cost/allocation.py:155-168 | a condition on the inputs alone: where no two remainders are that close, the shares are the best split |
| AllocationTies.SmallerRemainderFirst | src/meridian_storage/plugins/cost/allocation.py:155-168 | concrete weights and units for which the smaller remainder gets the unit and a better split exists |
| AllocationLaws.MadeSpecIsValid | src/meridian_storage/plugins/cost/allocation.py:63-87 | the constructor keeps the weights, in key order, and guarantees what allocation needs |
| AllocationLaws.ValidSpecIsMade | src/meridian_storage/plugins/cost/allocation.py:63-87 | and every valid specification is constructed, from its weights in any order |
| AllocationLaws.CallerOrderIsIrrelevant | src/meridian_storage/plugins/cost/allocation.py:63-87 | two callers who list the same weights in different orders get the same specification or the same error |
| Lifecycle.StepKeepsInv | src/meridian_storage/plugins/cost/repository.py:260-319 | every step of every client keeps the histories well formed and changes no stored snapshot |
| Lifecycle.AppendOnly | src/meridian_storage/plugins/cost/repository.py:260-274 | over every run no stored snapshot changes or disappears |
| Lifecycle.EveryHistoryHasShape | src/meridian_storage/plugins/cost/repository.py:260-319 | over every interleaving: revisions 1..n without gaps, drafts, then at most one each of validated, published, retired, with terms unchanged from the last draft on |
| Lifecycle.OneWinnerPerRevision | src/meridian_storage/plugins/cost/repository.py:260-274 | all clients that were told of success for one revision, at any time, were told of the same content |
| RateCards.OverlapExactly | src/meridian_storage/plugins/cost/repository.py:357-360 | two effective intervals overlap if and only if they share an instant, so adjacent ones do not |
| RateCards.CoversExactly | src/meridian_storage/plugins/cost/models.py:456-457 | a card covers a window if and only if every instant of it is in its effective interval |
| RateCards.MatchesDimensionsExactly | src/meridian_storage/plugins/cost/models.py:459-460 | a card matches exactly the maps that contain all of its dimensions with their values |
| RateCards.FurtherDimensionsMatch | src/meridian_storage/plugins/cost/models.py:459-460 | further dimensions never lose a match |
| RateCards.OtherDimensionsDiffer | src/meridian_storage/plugins/cost/models.py:459-460 | a dimension that is missing or different always does |
| Listing.FrozenTerms | src/meridian_storage/plugins/cost/models.py:462-484 | once a card has left draft, every later snapshot has its terms |
| Listing.FilterBeforeLatest | src/meridian_storage/plugins/cost/repository.py:219-234 | filtering before picking the latest returns exactly the cards whose true latest snapshot matches filter and state, for validated, published and retired |
| Listing.FilterBeforeLatestOnRuns | src/meridian_storage/plugins/cost/repository.py:219-234 | the same in every store that any run can reach |
| Listing.DraftListingExactly | src/meridian_storage/plugins/cost/repository.py:219-234 | for drafts and unfiltered states it is right exactly when no later snapshot moved a card out of the filter |
| Listing.ReplacedDraftStillListed | src/meridian_storage/plugins/cost/repository.py:219-234 | a run after which a replaced draft is still listed |
| Publishing.SerialRunInv | src/meridian_storage/plugins/cost/repository.py:337-369 | what each step keeps while publications of one pricing key do not interleave |
| Publishing.PublishedDisjoint | src/meridian_storage/plugins/cost/repository.py:353-369 | over every such run, published cards of one pricing key share no instant |
| Publishing.PutKeepsDisjointExactly | src/meridian_storage/plugins/cost/repository.py:353-369 | one put of a published snapshot keeps published cards apart if and only if it is clear of those published at that moment |
| Publishing.DisjointExactly | src/meridian_storage/plugins/cost/repository.py:337-369 | over every run: published cards of one pricing key are disjoint at every moment if and only if each snapshot was clear of the published ones when it was published |
| Publishing.ResolveAmbiguousExactly | src/meridian_storage/plugins/cost/repository.py:404-437 | after such a run, resolution is ambiguous if and only if two published cards that cover every instant of the window, have the criteria asked for, and whose dimensions are all given, differ in their dimensions |
| Publishing.ResolveUnique | src/meridian_storage/plugins/cost/repository.py:404-437 | if the cards that answer in this sense have one pricing key: the only one, or the missing error when there is none, never ambiguity |
| Publishing.ResolveAnswers | src/meridian_storage/plugins/cost/repository.py:404-437 | in every store: the only card that answers, the missing error for none, the other error only for several |
| Races.BothPublish | src/meridian_storage/plugins/cost/repository.py:337-369 | two validated cards are both published when their checks come before either put |
| Races.InterleavedPublicationsOverlap | src/meridian_storage/plugins/cost/repository.py:337-369 | a run that ends with two overlapping published cards of one pricing key |
| Races.AdjacentCardsArePublished | src/meridian_storage/plugins/cost/repository.py:337-369 | a run that publishes [0, 10) and then [10, 20) for one pricing key |
| CardAnswers.CreatedExactly | src/meridian_storage/plugins/cost/repository.py:276-289 | creation stores a new draft revision 1, succeeds for an equal stored one, and is refused for any other |
| CardAnswers.CreatedTwice | src/meridian_storage/plugins/cost/repository.py:276-289 | creating an equal card again succeeds and stores nothing |
| CardAnswers.ReplacedExactly | src/meridian_storage/plugins/cost/repository.py:291-304 | replacement appends exactly when the latest snapshot has the expected revision and both are drafts with successive revisions; otherwise which error |
| CardAnswers.MovedExactly | src/meridian_storage/plugins/cost/repository.py:306-319 | a transition appends the same card one state later, exactly when the latest snapshot has the expected revision and the state before; otherwise which error |
| CardAnswers.BlockedExactly | src/meridian_storage/plugins/cost/repository.py:353-363 | the overlap check fails if and only if another published card of the same pricing key shares an instant |
| CardAnswers.PublishedExactly | src/meridian_storage/plugins/cost/repository.py:337-369 | a validated card is published at its expected revision if and only if no other published card of its key shares an instant with it; otherwise which error |
| Repository.RateCardRepository.GetRateCard | src/meridian_storage/plugins/cost/repository.py:236-258 | the highest revision, the requested revision, or the missing-card error |
| Repository.RateCardRepository.ListRateCards | src/meridian_storage/plugins/cost/repository.py:192-234 | exactly the snapshots that are latest among the filtered ones and have the state, in ascending identity order, once each |
| Repository.RateCardRepository.AppendCard | src/meridian_storage/plugins/cost/repository.py:260-274 | put if absent; on a conflict success for equal content, otherwise the stale or the conflict error; the store gains at most this card |
| Repository.RateCardRepository.CreateRateCard | src/meridian_storage/plugins/cost/repository.py:276-289 | only draft revision 1; an equal stored card is returned as existing, a different one is a conflict, nothing else changes |
| Repository.RateCardRepository.ReplaceDraft | src/meridian_storage/plugins/cost/repository.py:291-304 | appends exactly a draft that continues the latest draft at the expected revision, with the error of each other case |
| Repository.RateCardRepository.MoveRateCard | src/meridian_storage/plugins/cost/repository.py:306-335 | appends exactly the next lifecycle state of the latest snapshot at the expected revision, with the error of each other case |
| Repository.RateCardRepository.PublishRateCard | src/meridian_storage/plugins/cost/repository.py:337-369 | publishes exactly when no current published card of the pricing key with another identity shares an instant with the card, with the error of each other case |
| Repository.RateCardRepository.ResolveRateCard | src/meridian_storage/plugins/cost/repository.py:404-437 | the one published card that has the criteria, covers every instant of the window and whose dimensions are all given, or the error for none, or the error for several |
| Repository.ReplaceIsTwoSteps | src/meridian_storage/plugins/cost/repository.py:291-304 | an undisturbed replacement is a read and a put of the protocol |
| Repository.MoveIsTwoSteps | src/meridian_storage/plugins/cost/repository.py:306-319 | so is an undisturbed transition |
| Repository.PublishIsFourSteps | src/meridian_storage/plugins/cost/repository.py:337-369 | an undisturbed publication is a read, a check, a second read and a put |
| Rows.Scan | src/meridian_storage/plugins/cost/repository.py:181-190 | the cursor loop terminates and returns what one unpaged query would, for every page size of at least 1 |
| Rows.LatestPerKey | src/meridian_storage/plugins/cost/usage.py:81-87 | the dictionary loop keeps one item per key, of the highest revision, in any order of the input |
| Rows.InsertRow | src/meridian_storage/plugins/cost/repository.py:171-179 | put with mode if_absent over the rows of a resource |
| Usage.MadeUsageIsClosed | src/meridian_storage/plugins/cost/models.py:606-632 | an accepted usage input is closed and keeps every aggregate |
| Usage.ClosedUsageIsMade | src/meridian_storage/plugins/cost/models.py:606-632 | and every closed set is accepted, in any order |
| Usage.UsageOrderIrrelevant | src/meridian_storage/plugins/cost/models.py:606-632 | the constructor's result, or its error, does not depend on the order of the aggregates |
| Usage.MadeExactly | src/meridian_storage/plugins/cost/models.py:606-632 | the constructor succeeds if and only if there are aggregates, no two with one id, and all are of its scope, meter and window and complete |
| Usage.UsageErrors | src/meridian_storage/plugins/cost/models.py:606-632 | which error it raises otherwise |
| Usage.QuantityIsTotal | src/meridian_storage/plugins/cost/models.py:634-636 | the quantity is the total over all aggregates |
| Usage.QuantityGrows | src/meridian_storage/plugins/cost/models.py:634-636 | one more aggregate adds its total; a single one gives its own |
| Usage.TotalPermutes | src/meridian_storage/plugins/cost/models.py:634-636 | the total does not depend on their order |
| Usage.Fetch | src/meridian_storage/plugins/cost/usage.py:49-94 | the input has the requested scope, window, unit and meter and holds exactly the highest revision of each aggregate that gives all of the card's dimensions, for every page size; its quantity is the total over these; it fails exactly when there are none or one of them does not suit the request |
| Usage.FetchIgnoresRowOrder | src/meridian_storage/plugins/cost/usage.py:66-94 | input, fingerprint and quantity do not depend on the order of the rows |
| Calculations.LookupByKey | src/meridian_storage/plugins/cost/allocation.py:185-188 | looking a share up by its key finds the share of that weight |
| Calculations.BuildRecords | src/meridian_storage/plugins/cost/calculator.py:197-280 | three allocations and the loop compute RecordsOf, errors included |
| Calculations.RecordsConserve | src/meridian_storage/plugins/cost/calculator.py:208-280 | for every price, usage and allocation the records exist, add up exactly to quantity, amount before adjustment, adjustments and final amount, and none is negative |
| Calculations.NoGuardFires | src/meridian_storage/plugins/cost/repository.py:548-562 | neither the calculation's constructor nor the checks before writing can fail on what the calculator builds |
| Calculations.GuardPassesExactly | src/meridian_storage/plugins/cost/repository.py:548-562 | the checks before writing pass if and only if the records list every record id of the calculation once and no other, are of its version, and add up to its final amount |
| Persistence.SucceedsExactly | src/meridian_storage/plugins/cost/repository.py:509-541 | a series of writes succeeds if and only if none of its identities is stored with other content |
| Persistence.RerunAfterCrash | src/meridian_storage/plugins/cost/repository.py:563-576 | stopping after any number of puts and rerunning gives the store and the outcome of an uninterrupted call |
| Persistence.ExactUnlessOrphans | src/meridian_storage/plugins/cost/repository.py:491-507 | after a successful call the records found for the calculation are its own if and only if no other record of that version was stored before |
| Persistence.OrphanAfterCrash | src/meridian_storage/plugins/cost/repository.py:543-576 | a stopped calculation followed by one with other weights leaves a record that is found but not listed |
| Writers.StepKeepsInv | src/meridian_storage/plugins/cost/repository.py:543-576 | every single put of any number of writers, and every crash, keeps stored calculations complete |
| Writers.StoredCalculationsAreComplete | src/meridian_storage/plugins/cost/repository.py:543-576 | over every run without transactions: a stored calculation has all of its records, each of its version, adding up to its final amount |
| Calculator.BuildIsGood | src/meridian_storage/plugins/cost/calculator.py:135-190 | what is built from any stored predecessor may be persisted, carries the request's identity and the next revision |
| Calculator.BuildFailsOnlyOnPrice | src/meridian_storage/plugins/cost/calculator.py:135-190 | building fails if and only if the quantity or the price does |
| Calculator.PersistKeepsBook | src/meridian_storage/plugins/cost/repository.py:563-576 | an atomic write keeps every stored calculation's records, chain and totals intact |
| CalculationRuns.StepKeepsInv | src/meridian_storage/plugins/cost/calculator.py:128-195 | every search, proposal, commit and crash of any client keeps the calculation book |
| CalculationRuns.EverySeriesIsChained | src/meridian_storage/plugins/cost/calculator.py:136-187 | over every interleaving with atomic writes: revisions 1..n, each superseding exactly the one before; exactly the own records are found; each record supersedes its counterpart |
| CalculationRuns.CommitKeepsUniqueExactly | src/meridian_storage/plugins/cost/calculator.py:128-187 | a commit keeps identities unique if and only if none is stored with its identity at that moment |
| CalculationRuns.UniqueExactly | src/meridian_storage/plugins/cost/calculator.py:128-187 | over every run, identities are unique at its end if and only if every commit that stored a new version was the first with its identity |
| CalculationRuns.IdentitiesUnique | src/meridian_storage/plugins/cost/calculator.py:128-187 | over every run whose searches for one identity do not interleave, each identity is stored at most once |
| Billing.BuildIsBilled | src/meridian_storage/plugins/cost/calculator.py:135-190 | what is built bills the total of its usage at the price its card prescribes, with one record per weight, and shares quantity and amounts out by the weights |
| Billing.EveryCalculationIsBilled | src/meridian_storage/plugins/cost/calculator.py:128-280 | over every interleaving with atomic writes: the same of every stored calculation and exactly its stored records, whose quantities add up to the total of its usage |
| Billing.NewCalculationBills | src/meridian_storage/plugins/cost/calculator.py:128-195 | what an undisturbed call that is no replay returns |
| Billing.BillsChosenRows | src/meridian_storage/plugins/cost/calculator.py:109-190 | for a fetched usage, the quantity billed is the total over exactly the chosen rows |
| Replay.RepeatedInputsReplay | src/meridian_storage/plugins/cost/calculator.py:128-134 | over such runs, repeating earlier inputs at any later point returns the original calculation and records and leaves the store unchanged |
| Replay.CardCheckStays | src/meridian_storage/plugins/cost/calculator.py:57-81 | while a card stays published the card check answers the same request the same way |
| Calls.CheckLater | src/meridian_storage/plugins/cost/calculator.py:57-81 | a request that passed the card check once passes it later if and only if the card is still published, and is refused as invalid otherwise |
| Calls.CardCheckExactly | src/meridian_storage/plugins/cost/calculator.py:57-81 | the card check passes if and only if the latest snapshot has the terms asked for, is published, and covers every instant of the window; otherwise which error |
| Calls.CallSucceedsExactly | src/meridian_storage/plugins/cost/calculator.py:57-195 | a whole call succeeds if and only if its card is usable, its usage is of the card's meter and complete in time, and its identity is stored once, or not at all and can be priced |
| Calls.RepeatedCallReplays | src/meridian_storage/plugins/cost/calculator.py:83-195 | the whole call, card check included: repeated inputs return the original calculation while the card is published, are refused once it is not, and leave the store unchanged |
| Replay.CalculateSucceedsExactly | src/meridian_storage/plugins/cost/calculator.py:128-195 | when an undisturbed call succeeds, in terms of the request, the stored identity and the price alone |
| Replay.CalculateIsThreeSteps | src/meridian_storage/plugins/cost/calculator.py:128-195 | an undisturbed call is a search, a proposal and a commit of the protocol |
| Replay.InterleavedSearchesStoreTwice | src/meridian_storage/plugins/cost/calculator.py:128-187 | for every priceable request, a run of two clients that stores its identity twice, after which every call for it is a conflict |
| Replay.IdentityDeterminesSeriesExactly | src/meridian_storage/plugins/cost/calculator.py:109-127 | equal identities have equal series if and only if the requested scopes are equal |
| Replay.ReplayStaysInSeries | src/meridian_storage/plugins/cost/calculator.py:109-134 | with providers that return the requested scope, replay never answers from another series |
| Replay.StoredIdentityDeterminesSeries | src/meridian_storage/plugins/cost/calculator.py:109-134 | under the same condition, stored calculations with one identity are of one series |
| Replay.UnfaithfulReplay | src/meridian_storage/plugins/cost/calculator.py:109-134 | without that, a request is answered with the calculation of another scope |
| Samples.IdentityStoredTwice | src/meridian_storage/plugins/cost/calculator.py:128-187 | a concrete request and run after which its identity is stored twice and every call for it fails |
| Samples.OtherScopeAnswered | src/meridian_storage/plugins/cost/calculator.py:109-134 | a concrete run after which a request for one scope gets the calculation of another |
| Samples.OrphanFound | src/meridian_storage/plugins/cost/repository.py:491-507 | concrete inputs after which a stored calculation can no longer make a result |
| CalculationRepository.CostStore.FindCalculation | src/meridian_storage/plugins/cost/repository.py:450-466 | none, the one stored calculation, or a conflict |
| CalculationRepository.CostStore.LatestCalculation | src/meridian_storage/plugins/cost/repository.py:468-480 | the highest stored revision of the series |
| CalculationRepository.CostStore.RecordsForCalculation | src/meridian_storage/plugins/cost/repository.py:491-507 | exactly the stored records of the version, once each |
| CalculationRepository.CostStore.PutRecord | src/meridian_storage/plugins/cost/repository.py:509-522 | get, put and second get amount to one put-if-absent and a comparison |
| CalculationRepository.CostStore.PutCalculation | src/meridian_storage/plugins/cost/repository.py:524-541 | the same for a calculation |
| CalculationRepository.CostStore.PersistCalculation | src/meridian_storage/plugins/cost/repository.py:543-576 | guards first; then all writes in order, undone on a conflict if there is a transaction, and kept up to the conflict if there is none |
| CalculationRepository.CostStore.Calculate | src/meridian_storage/plugins/cost/calculator.py:128-195 | search, replay or price, build and persist compute CalculateIn and keep the book |
| CalculationRepository.CostStore.Call | src/meridian_storage/plugins/cost/calculator.py:57-195 | card lookup, card check and calculation together compute CallIn and keep the book |
| CalculationRepository.PreviousByAllocation | src/meridian_storage/plugins/cost/calculator.py:143 | the dictionary of previous records is the same in whatever order they were read |
| DecimalText.FitsExactly | src/meridian_storage/plugins/cost/_canonical.py:88-95 | the digit counts of fit_decimal accept exactly the whole numbers of 10^-18 below the schema bound |
| DecimalText.RoundTrip | src/meridian_storage/plugins/cost/_canonical.py:98-103 | the text of every admitted decimal reads back as an admitted decimal of the same value |
| DecimalText.SameTextExactly | src/meridian_storage/plugins/cost/_canonical.py:98-103 | two decimals have the same text if and only if they are numerically equal, whatever their exponents, trailing zeros or signs of zero |
| DecimalText.PrintIsStable | src/meridian_storage/plugins/cost/_canonical.py:76-103 | printing what was read back gives the same text |
| DecimalText.TextHasForm | src/meridian_storage/plugins/cost/_canonical.py:98-103 | every text has the plain form: a sign only for a negative value, no leading and no trailing zeros, no empty fraction |
| Query.Where | src/meridian_storage/plugins/cost/query.py:54-83 | the validation loop computes WhereOf and returns a valid map in name order |
| Query.WhereExactly | src/meridian_storage/plugins/cost/query.py:54-83 | accepted exactly when small enough and each predicate is well formed; the last predicate of a name counts |
| Query.CheckedExactly | src/meridian_storage/plugins/cost/query.py:54-83 | a predicate is accepted if and only if it is well formed, and the checked one accepts the values that the raw one asks for |
| Query.WhereMeans | src/meridian_storage/plugins/cost/query.py:54-119 | end to end: an accepted map selects, in both lowerings, exactly the records that satisfy the last predicate of every name |
| Query.PredicateTree | src/meridian_storage/plugins/cost/query.py:86-107 | the nested loops build the conjunction of all operators |
| Query.LoweringsAgree | src/meridian_storage/plugins/cost/query.py:86-119 | the expression tree and the $-operator mapping accept the same records, with in, notIn and isNull |

## Left out

- AllocationLaws.SharesAreLargestRemainder: states the largest-remainder rule with exact floors and remainders while units times total weight is below 10^98; for all inputs there are the quota rule, fairness, and AllocationOptimality.SharesOptimalExactly.
- AllocationLaws.RemainingBelow: at most n - 1 units are left over under the same bound; AllocationPrecision.RemainingRange has n for all inputs.
- AllocationPrecision.RawExact: exactness needs the bound of 10^98; without it AllocationPrecision.RemainingRange bounds the error.
- Publishing.PublishedDisjoint: claimed for runs in which publications of one pricing key do not interleave; Races shows why, Publishing.DisjointExactly covers every run.
- CalculationRuns.IdentitiesUnique: claimed for runs in which searches for one identity do not interleave, and with atomic writes; Replay and Persistence show why.
- Usage.Fetch: takes the rows that the released usage query matches, and the meter's unit, as parameters, and requires one row per aggregate and revision; the failures of the usage API are not part of this model.
- Replay.RepeatedInputsReplay: begins after the card check; Calls.RepeatedCallReplays is about the whole call.
- Replay.CardCheckStays: speaks of two snapshots that are published; Calls.CheckLater is about whatever the latest snapshot then is.
- Publishing.ResolveAnswers: reads "covers" as instants for windows with start before end, as do Publishing.ResolveAmbiguousExactly, Publishing.ResolveUnique, Calls.CardCheckExactly and Calls.CallSucceedsExactly; UsageWindow is not part of this model.
- The ambient 28-digit decimal context outside the 100-digit blocks (the normalisation in fit_decimal, sums, the tier subtraction, the final sum check): these operations are taken to be exact.
- SHA-256, JSON encoding, Unicode normalisation and the syntax of tokens and names: fingerprints are taken to be injective, names opaque.
- The dimension-set checks of an allocation specification, and required provenance entries: keys and provenance are opaque.
- The order of records by cost id, which is an order of hashes: record ids are multisets, results are sets.
- Adjustment reasons, reason fingerprints, the explanation and the lineage of a calculation: they are determined by fields that are modelled.
- The format of a zero with a positive exponent follows Python's decimal module ("0"); special values and exponent notation are not read back.
- The comparison of values of different types in a query, which the executor rejects: the model calls them unordered. Query ordering, projection and budgets.
- The runtime, the PostgreSQL adapter, idempotency keys and the inside of a transaction: a transaction is all of its writes or none.
- Evidence, plugin, schema and error envelopes; datetime parsing; field-by-field mappings; release scripts.
