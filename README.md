# FuelEU Maritime compliance ledger — verified model

This project models the backend core of a FuelEU Maritime compliance ledger, which follows Regulation (EU) 2023/1805. It covers:

- Article 20 (banking).
- Article 21 (pooling).
- The compliance-balance formulas they rest on.

It is written in Dafny, with one module per source file.

- **Route formulas** (`RouteEntity`):
  - energy in scope = fuel × 41 000 MJ/t;
  - compliance balance (CB) = (89.3368 − intensity) × energy;
  - a route is compliant when CB ≥ 0;
  - the percent difference of a route's intensity against the baseline route.
- **Route comparison** (`CompareRoutes`): one comparison per route of the table. It needs a baseline route.
- **CB cache** (`ComputeCB`):
  - sums the CBs of the routes whose id equals the ship id (read as a number) and whose year matches;
  - rounds the sum with `Math.round`;
  - upserts it into the compliance table.
- **Banking ledger** (`PrismaBankRepository`): an append-only sequence of signed entries. Two sums are read from it:
  - the *net* banked amount: all entries;
  - the *total* banked: positive entries only.
- **Banking and applying** (`BankSurplus`, `ApplyBanked`):
  - Banking is capped by base CB − total banked, and never writes the CB table.
  - Applying is capped by the net amount. It appends a negative entry and raises the stored CB by the amount.
- **Adjusted CB** (`GetAdjustedCB`): base CB + net banked. Pooling starts from it.
- **Pooling** (`CreatePool`):
  1. Gathers the adjusted CBs.
  2. Refuses a negative sum.
  3. Sorts the members by CB, highest first.
  4. Runs the greedy surplus/deficit sweep.
  5. Runs the validation loop.
  6. Stores the pool.
- **Repositories** (`PrismaComplianceRepository`, `PrismaRouteRepository`, `PrismaPoolRepository`, and the bank repository above) are classes over in-memory sequences. The use cases that write are methods, and the read-only ones (`CompareRoutes.CompareRoutes`, `GetAdjustedCB.GetAdjustedCB`) are functions. Each takes the repositories as parameters, as the TypeScript functions take their ports.

Results of operations that can fail are `Result` values, and the guards are checked in the source's order. Most `Err` variants correspond to one `throw` of the source. Two stand for failures without a `throw`:

- `MemberNotFound`: the non-null assertion `!` on the member lookup in `createPool`.
- `RouteNotFound`: Prisma's failing `update` in `setBaseline`. The use cases' guard chains are specified by pure decision functions:

- `BankSurplus.BankDecision`
- `ApplyBanked.ApplyDecision`
- `CreatePool.PoolDecision` and `CreatePool.PoolPlan`

The methods are proved equal to these functions, and the lemmas state the properties of the functions.

Behaviour the proofs bring out:

- **Pooling never refuses a valid pool.** Once the sum gate has passed, the descending sweep covers every deficit. Every member exits at 0, and the whole pool sum is left as surplus that is returned to no one (`CreatePool.AllocationSettlesEveryMember`).
  - The partial-coverage branch of the sweep is unreachable after the gate.
  - The validation loop can never reject the sweep's output (`CreatePool.SweepPassesValidation`). This holds in any member order, provided members listed under the same ship id carry the same CB. Members gathered from the repositories always do (`CreatePool.GatheredMembersPassValidation`).
  - So a request is accepted exactly when the list is non-empty, every member has a stored CB, and the sum is at least zero (`CreatePool.PoolAcceptedIffSumNonNegative`).
- **A ship can bank the same surplus twice.** Applying raises the stored CB, but the positive-only total banked stays where it was. A ship that banks its whole surplus and applies it may therefore bank the same amount again, and its total banked then exceeds its original CB (`ApplyBanked.BankApplyBankAgain`). The source's comments conflict on whether this is intended. `ApplyBanked.ts` (lines 7 and 40) says that applying raises the CB. `BankSurplus.ts` says the ceiling prevents double-banking the same surplus (lines 12-13) and that the base CB never changes (line 22). `GetAdjustedCB.ts` (line 17) says the base CB is not modified by banking. The model follows the code as written.
- **The first seeded route's figure.** The route at 91.0 gCO2e/MJ over 5000 t has CB −340 956 000 gCO2e by the code's formula (`RouteEntity.SeededDeficitRoute`).
- **A rounded 0 can still be non-compliant.** The comparison's compliance flag is taken from the unrounded CB, so a route whose rounded balance is 0 can still be reported as not compliant (`CompareRoutes.RoundedBalanceCanHideDeficit`).
- **`setBaseline` has no transaction.** With an unknown id, every baseline flag has already been cleared when the update fails, so no baseline is left (`PrismaRouteRepository.RouteRepository.SetBaseline`).

## Model

| member | source | states |
|---|---|---|
| RouteEntity.Round | Backend/src/core/application/CompareRoutes.ts:27 | `Math.round`: the result is the integer within half a unit of x, halves rounding up |
| RouteEntity.PercentDiff | Backend/src/core/domain/RouteEntity.ts:23-25 | undefined exactly when the baseline intensity is 0; otherwise the percentage that, applied to the baseline intensity, gives the route's difference from it |
| RouteEntity.EnergyInScope | Backend/src/core/domain/RouteEntity.ts:30-32 | the energy is positive exactly when fuel was burnt, and zero exactly when none was |
| RouteEntity.ComplianceBalance | Backend/src/core/domain/RouteEntity.ts:34-42 | with fuel burnt, intensity below the target gives a surplus and intensity above it a deficit, both ways; no fuel, or intensity at the target, gives a zero balance |
| RouteEntity.IsCompliant | Backend/src/core/domain/RouteEntity.ts:44-50 | a route that burnt fuel is compliant exactly when its intensity is at or below 89.3368 |
| RouteEntity.PercentDiffOfBaselineIsZero | Backend/src/core/domain/RouteEntity.ts:23-25 | the baseline differs from itself by 0 % when its intensity is non-zero |
| RouteEntity.PercentDiffSign | Backend/src/core/domain/RouteEntity.ts:23-25 | against a positive baseline intensity the percent difference is defined, and is positive or negative exactly when the route's intensity is above or below the baseline's |
| RouteEntity.SeededDeficitRoute | Backend/src/core/domain/RouteEntity.ts:17-42 | 91.0 gCO2e/MJ over 5000 t: energy 205 000 000 MJ, rounded CB −340 956 000, not compliant |
| CompareRoutes.Compare | Backend/src/core/application/CompareRoutes.ts:14-29 | the entry copies the route's fields and carries the percent difference and the balance rounded to the nearest gram; a positive rounded balance is always flagged compliant, and a compliant route never shows a negative one |
| CompareRoutes.CompareRoutes | Backend/src/core/application/CompareRoutes.ts:8-31 | fails exactly when there is no baseline; otherwise one entry per route in table order, with the identifying fields copied, the percent difference against the baseline, the rounded CB, and a flag true exactly when the unrounded CB is ≥ 0 |
| CompareRoutes.BaselineComparesAtZero | Backend/src/core/application/CompareRoutes.ts:9-26 | with a baseline of non-zero intensity, the baseline's own entry has a percent difference of 0 |
| CompareRoutes.RoundedBalanceCanHideDeficit | Backend/src/core/application/CompareRoutes.ts:27-28 | a route with a deficit under half a gram has a rounded balance of 0 but is not compliant |
| ComputeCB.ShipRoutes | Backend/src/core/application/ComputeCB.ts:13-14 | the selection holds each table route whose id is the ship id read as a number and whose year matches, exactly as often as the table does, and no other route; so the summed balance is fixed |
| ComputeCB.SumComplianceBalances | Backend/src/core/application/ComputeCB.ts:21-24 | the accumulation loop yields the sum of the routes' balances, added in list order |
| ComputeCB.ComputeCB | Backend/src/core/application/ComputeCB.ts:6-39 | with no matching route: fails and leaves the table as it was; otherwise returns and upserts the rounded sum, which then reads back for (shipId, year) |
| ComputeCB.ComputeTwiceChangesNothing | Backend/src/core/application/ComputeCB.ts:13-32 | a second computation over the same routes leaves the table and its id counter as the first left them |
| ComputeCB.ShipNumberExamples | Backend/src/core/application/ComputeCB.ts:14 | "12" selects route 12, "" selects route 0, and "1a" selects no route |
| GetAdjustedCB.GetAdjustedCB | Backend/src/core/application/GetAdjustedCB.ts:11-38 | fails exactly when no CB is stored; otherwise reads only, reporting the stored CB, the net banked amount, and an adjusted CB that exceeds the stored one by exactly the net banked amount |
| BankSurplus.BankDecision | Backend/src/core/application/BankSurplus.ts:22-78 | accepted exactly when a record exists, its CB is positive and 0 < amount ≤ CB − total banked; each of the five refusals is stated with its error, in the source's guard order: no record, CB not positive, amount not positive, nothing available (CB − total ≤ 0), and amount above the available CB − total; on success the new total plus the remaining availability equal the base CB, availability stays ≥ 0, and the CB is unchanged |
| BankSurplus.BankSurplus | Backend/src/core/application/BankSurplus.ts:15-79 | the decision on the stored record and total; one `+amount` ledger entry on success and none on failure; the total banked then stays within the base CB and the net grows by the amount |
| BankSurplus.BankRunStaysWithinBase | Backend/src/core/application/BankSurplus.ts:41-59 | over any run of banking requests against one CB record, the total banked never rises above the base CB, or above where it already stood |
| BankSurplus.BankTwiceThenExceed | Backend/src/core/application/BankSurplus.ts:43-59 | with base CB 8000, banking 3000 then 4000 succeeds, and a further 1500 fails with only 1000 available |
| ApplyBanked.ApplyDecision | Backend/src/core/application/ApplyBanked.ts:16-53 | accepted exactly when amount > 0, a record exists and amount ≤ net banked; errors in the source's guard order; on success the CB rises by the amount and the net left is ≥ 0 |
| ApplyBanked.ApplyBanked | Backend/src/core/application/ApplyBanked.ts:9-54 | the decision on the stored record and net amount; on success one `−amount` entry and the upserted CB, keeping its id; the net drops by the amount, the total is unchanged, and other keys' records are unchanged; on failure nothing is written |
| ApplyBanked.BankApplyBankAgain | Backend/src/core/application/ApplyBanked.ts:27-45 | after banking the whole surplus and applying it, the same amount can be banked again, and the total banked reaches twice the original CB |
| PrismaBankRepository.NetBanked | Backend/src/adapters/outbound/postgres/PrismaBankRepository.ts:7-15 | the net amount of a key is never above the sum of its positive entries |
| PrismaBankRepository.TotalBanked | Backend/src/adapters/outbound/postgres/PrismaBankRepository.ts:17-29 | the positive-only total is never below 0 |
| PrismaBankRepository.Records | Backend/src/adapters/outbound/postgres/PrismaBankRepository.ts:31-35 | the records returned are exactly the ledger entries with the key |
| PrismaBankRepository.RecordsAppend | Backend/src/adapters/outbound/postgres/PrismaBankRepository.ts:31-35 | records come in ledger order: a new entry joins the end of its own key's records and no other key's |
| PrismaBankRepository.RecordsCount | Backend/src/adapters/outbound/postgres/PrismaBankRepository.ts:31-35 | the key's records hold each of its ledger entries exactly as often as the ledger does, and no entry of another key |
| PrismaBankRepository.NetBankedIsSumOfRecords | Backend/src/adapters/outbound/postgres/PrismaBankRepository.ts:7-15 | the net banked amount is the sum over exactly the key's records; other keys' entries do not count |
| PrismaBankRepository.AppendEntry | Backend/src/adapters/outbound/postgres/PrismaBankRepository.ts:37-61 | appending an entry moves the net by its amount and the total by its amount when positive, and only for its own key |
| PrismaBankRepository.BankRepository.GetBankedAmount | Backend/src/adapters/outbound/postgres/PrismaBankRepository.ts:7-15 | the net amount never exceeds the positive-only total |
| PrismaBankRepository.BankRepository.GetTotalBankedAmount | Backend/src/adapters/outbound/postgres/PrismaBankRepository.ts:17-29 | the positive-only total is never below 0 |
| PrismaBankRepository.BankRepository.GetBankRecords | Backend/src/adapters/outbound/postgres/PrismaBankRepository.ts:31-35 | the listing holds each of the key's ledger entries exactly as often as the ledger does, and nothing else |
| PrismaBankRepository.BankRepository.BankSurplus | Backend/src/adapters/outbound/postgres/PrismaBankRepository.ts:37-48 | a non-positive amount is rejected with the ledger unchanged; otherwise exactly one `+amount` entry is appended, and both sums grow by the amount |
| PrismaBankRepository.BankRepository.ApplyBanked | Backend/src/adapters/outbound/postgres/PrismaBankRepository.ts:50-62 | a non-positive amount is rejected with the ledger unchanged; otherwise exactly one `−amount` entry is appended, the net drops by the amount and the total is unchanged |
| PrismaComplianceRepository.FindRecord | Backend/src/adapters/outbound/postgres/PrismaComplianceRepository.ts:7-12 | the index found holds the key and no earlier record does; none is found exactly when no record holds the key |
| PrismaComplianceRepository.Lookup | Backend/src/adapters/outbound/postgres/PrismaComplianceRepository.ts:7-12 | the record returned is in the table with the key; null exactly when no record has the key |
| PrismaComplianceRepository.Upserted | Backend/src/adapters/outbound/postgres/PrismaComplianceRepository.ts:18-36 | the table grows by one record exactly when the key was absent; every existing record keeps its id and key, and records of other keys are unchanged |
| PrismaComplianceRepository.FindRecordIsFirst | Backend/src/adapters/outbound/postgres/PrismaComplianceRepository.ts:7-12 | the first record holding the key is the one a lookup finds |
| PrismaComplianceRepository.UpsertedReadsBack | Backend/src/adapters/outbound/postgres/PrismaComplianceRepository.ts:18-36 | after an upsert the key reads back the new CB, under the old id when the key existed and under a fresh id otherwise |
| PrismaComplianceRepository.UpsertedKeepsOtherKeys | Backend/src/adapters/outbound/postgres/PrismaComplianceRepository.ts:18-36 | an upsert leaves every other key's lookup unchanged |
| PrismaComplianceRepository.UpsertedKeepsUniqueness | Backend/src/adapters/outbound/postgres/PrismaComplianceRepository.ts:18-36 | an upsert preserves "at most one record per (shipId, year)" |
| PrismaComplianceRepository.UpsertIsIdempotent | Backend/src/adapters/outbound/postgres/PrismaComplianceRepository.ts:18-36 | upserting the same CB twice leaves the table and id counter as one upsert does |
| PrismaComplianceRepository.InsertOnExistingKeyDuplicates | Backend/src/adapters/outbound/postgres/PrismaComplianceRepository.ts:14-16 | an unconditional save for a key already present breaks "at most one record per key" |
| PrismaComplianceRepository.ComplianceRepository.GetCB | Backend/src/adapters/outbound/postgres/PrismaComplianceRepository.ts:7-12 | the record returned is in the table with the key; null exactly when no record has the key |
| PrismaComplianceRepository.ComplianceRepository.SaveCB | Backend/src/adapters/outbound/postgres/PrismaComplianceRepository.ts:14-16 | appends one record with a fresh id, whatever the table holds |
| PrismaComplianceRepository.ComplianceRepository.UpsertCB | Backend/src/adapters/outbound/postgres/PrismaComplianceRepository.ts:18-36 | the table becomes the upserted table; the key then reads back the new CB, keeping an existing id; other keys are unchanged |
| PrismaRouteRepository.FilterRoutes | Backend/src/adapters/outbound/postgres/PrismaRouteRepository.ts:6-18 | the listing holds exactly the table's routes that match every given filter field; an absent, empty or zero field constrains nothing |
| PrismaRouteRepository.UnfilteredListingIsWholeTable | Backend/src/adapters/outbound/postgres/PrismaRouteRepository.ts:6-18 | listing without filters returns the whole table, in order |
| PrismaRouteRepository.FilterTakesFromTable | Backend/src/adapters/outbound/postgres/PrismaRouteRepository.ts:6-18 | a listing never holds a route more often than the table does |
| PrismaRouteRepository.FirstBaseline | Backend/src/adapters/outbound/postgres/PrismaRouteRepository.ts:20-22 | the route returned is in the table and flagged as baseline; null exactly when no route is flagged |
| PrismaRouteRepository.FindRouteIndex | Backend/src/adapters/outbound/postgres/PrismaRouteRepository.ts:29-32 | the index found holds the id; none exactly when no route has it |
| PrismaRouteRepository.RouteRepository.GetAll | Backend/src/adapters/outbound/postgres/PrismaRouteRepository.ts:6-18 | the listing holds exactly the routes matching the filters; without filters it is the whole table in order |
| PrismaRouteRepository.RouteRepository.GetBaseline | Backend/src/adapters/outbound/postgres/PrismaRouteRepository.ts:20-22 | the route returned is in the table and flagged as baseline; null exactly when no route is flagged |
| PrismaRouteRepository.RouteRepository.SetBaseline | Backend/src/adapters/outbound/postgres/PrismaRouteRepository.ts:24-33 | only baseline flags change; with a known id exactly that route is the baseline; with an unknown id the call fails and no route is left flagged |
| PrismaRouteRepository.SetBaselineLeavesOneBaseline | Backend/src/adapters/outbound/postgres/PrismaRouteRepository.ts:24-33 | after a successful update the only flagged route is the chosen one, and the baseline lookup returns it |
| PrismaPoolRepository.PoolRepository.CreatePool | Backend/src/adapters/outbound/postgres/PrismaPoolRepository.ts:7-27 | stores the pool with all its members under a fresh id, appended to the table |
| CreatePool.AdjustedCBs | Backend/src/core/application/CreatePool.ts:22-36 | succeeds exactly when every listed ship has a stored CB; then one entry per request entry, in order, carrying that ship's adjusted CB; otherwise fails for the first ship without one |
| CreatePool.PoolSum | Backend/src/core/application/CreatePool.ts:39 | a pool with no surplus member sums to at most 0 |
| CreatePool.PoolSumConcat | Backend/src/core/application/CreatePool.ts:39 | the pool sum of two lists joined is the sum of their pool sums |
| CreatePool.SortDescending | Backend/src/core/application/CreatePool.ts:47 | the sorted list is a permutation of the members, ordered by CB, highest first |
| CreatePool.InsertKeepsOrder | Backend/src/core/application/CreatePool.ts:47 | inserting into a descending list keeps it descending |
| CreatePool.SortKeepsSum | Backend/src/core/application/CreatePool.ts:39-47 | sorting does not change the pool sum |
| CreatePool.Step | Backend/src/core/application/CreatePool.ts:53-83 | one member adds one allocation with its id and CB; the surplus plus the member's exit balance equals the surplus before plus its CB; from a surplus ≥ 0 the surplus stays ≥ 0, a member at or above 0 exits at 0, and a deficit member exits between its CB and 0 |
| CreatePool.Sweep | Backend/src/core/application/CreatePool.ts:50-84 | one allocation per member, and the surplus never goes negative |
| CreatePool.SweepKeepsMembers | Backend/src/core/application/CreatePool.ts:53-84 | the sweep emits one allocation per member, in order, with the member's id and CB before |
| CreatePool.SweepBounds | Backend/src/core/application/CreatePool.ts:51-84 | in any order the surplus never goes negative; members at or above 0 exit at 0; deficit members exit between their CB and 0 |
| CreatePool.SweepConserves | Backend/src/core/application/CreatePool.ts:51-84 | in any order, the unallocated surplus plus the exit balances equals the pool sum |
| CreatePool.SweepPrefixSettles | Backend/src/core/application/CreatePool.ts:39-84 | in descending order with a sum ≥ 0, every prefix of the sweep has covered all its deficits and holds the prefix's sum as surplus |
| CreatePool.DeficitPrefixSum | Backend/src/core/application/CreatePool.ts:39-47 | in descending order with a pool sum ≥ 0, every prefix that ends on a deficit member still sums to ≥ 0, so the surplus gathered before a deficit covers it |
| CreatePool.AllocationSettlesEveryMember | Backend/src/core/application/CreatePool.ts:39-84 | when the pool sum is ≥ 0, the greedy plan has every member exit at 0 and leaves the whole sum as surplus |
| CreatePool.SweepAllocations | Backend/src/core/application/CreatePool.ts:49-84 | the sweep loop computes the sweep's allocations and final surplus |
| CreatePool.FindMember | Backend/src/core/application/CreatePool.ts:90 | the member found is the first with the ship id; none exactly when no member has it |
| CreatePool.Validate | Backend/src/core/application/CreatePool.ts:86-101 | passes exactly when no allocation violates the rules; otherwise reports the first violating allocation's error |
| CreatePool.ValidateAllocations | Backend/src/core/application/CreatePool.ts:89-101 | the validation loop returns the validation verdict |
| CreatePool.SweepPassesValidation | Backend/src/core/application/CreatePool.ts:53-101 | when members listed under the same ship id carry the same CB, the sweep's output passes validation, in any member order |
| CreatePool.GatheredMembersPassValidation | Backend/src/core/application/CreatePool.ts:22-101 | for the members a request gathers, validation never refuses the greedy plan |
| CreatePool.PoolPlan | Backend/src/core/application/CreatePool.ts:38-101 | refused for a negative sum, or for a violating allocation, with that error; otherwise the allocations list the members in descending CB order, each exiting at 0 |
| CreatePool.PlanPool | Backend/src/core/application/CreatePool.ts:38-101 | the sum gate, sort, sweep and validation loop produce the plan |
| CreatePool.PoolDecision | Backend/src/core/application/CreatePool.ts:18-111 | the empty list is refused first, then a member without a CB, then the plan's refusals; on success the result carries the plan, the year, the new id and the pool sum |
| CreatePool.CreatePool | Backend/src/core/application/CreatePool.ts:11-112 | returns the decision on the adjusted CBs gathered before the write; stores the pool under the fresh id exactly on success, and otherwise writes nothing |
| CreatePool.PoolAcceptedIffSumNonNegative | Backend/src/core/application/CreatePool.ts:18-111 | a request succeeds exactly when the list is non-empty, every ship has a CB and the adjusted CBs sum to ≥ 0; the pool then has one allocation per request entry, all at 0 |
| CreatePool.PlanPermutesMembers | Backend/src/core/application/CreatePool.ts:47-84 | an accepted plan's members are a permutation of the gathered members, highest CB first |
| CreatePool.GatheredEntryIsAdjustedCB | Backend/src/core/application/CreatePool.ts:23-35 | every gathered entry carries the adjusted CB of a requested ship |
| CreatePool.PoolMembersAreAdjustedCBs | Backend/src/core/application/CreatePool.ts:23-84 | the stored members are a permutation of the gathered members, highest CB first, and each one's CB before is its ship's adjusted CB |
| CreatePool.SurplusCoversDeficit | Backend/src/core/application/CreatePool.ts:53-84 | ships at +500 and −300 both exit at 0, leaving 200 |
| CreatePool.DeficitFirstStaysUncovered | Backend/src/core/application/CreatePool.ts:47-84 | without the sort, a −300 deficit met before the +500 surplus stays at −300 |

## Left out

- Floating point. Route formulas are over exact reals and gCO2e amounts are integers, so binary rounding error is not modelled.
- CompareRoutes.CompareRoutes: the percent difference is exact. The source rounds it to two decimals with `toFixed(2)`, which is not modelled.
- RouteEntity.PercentDiff: a zero baseline intensity gives `None`. The source gives NaN or ±Infinity.
- ComputeCB.ShipNumber: only digit strings and the empty string are read as numbers. Every other spelling `Number()` accepts (whitespace, sign, decimals, hexadecimal, exponent) is treated as NaN, which matches no route.
- Bank and apply amounts are integers. The source accepts fractional numbers; with integers, its `Math.round` calls in `applyBanked` and `getAdjustedCB` change nothing.
- The database is a set of in-memory sequences:
  - query results come back in insertion order;
  - bank-entry ids, `createdAt` timestamps and pool-member ids are not modelled;
  - connection failures are not modelled.
- The failing `update` in `setBaseline` is modelled as the error `RouteNotFound`.
- Concurrency: the `Promise.all` in `createPool` is evaluated in list order. Where several members lack a CB, the reported error is the first in list order; in the source it is whichever lookup rejects first. Races between concurrent requests are not modelled, and the source has no transactions.
- CreatePool.SortDescending: the contract states order and permutation, not stability. Members with equal CB do keep their request order by construction, as in the stable `Array.prototype.sort`.
- HTTP controllers and their parsing, including the "compute on miss" in `complianceController.ts`. They are request handling around the modelled use cases.
- The frontend, seed data, configuration and the port interfaces. They hold no ledger logic.
