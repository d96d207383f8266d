# Locked-MANA aggregation of the land auction's address service

This Dafny project models how the address service of the land auction
reports the MANA an address has locked (`AddressService.lockedMANABalanceOf`
and its two helpers, `fillByMonth` and `calculateTotalForMonths`), and
proves what that figure is.

- Two monthly lookups give rows of `(month, mana)`: the MANA locked to
  districts and the total MANA locked. `FillByMonth` turns each list into a
  month-to-amount table. Months 1..12 start at 0. Each row then sets its
  month to its mana, in order, so a later row for the same month
  overwrites an earlier one. A row whose month lies outside 1..12 adds a
  key of its own.
- `TotalForMonths` (calculateTotalForMonths) is the running sum of
  `total[m] - districts[m]` over a list of months.
- `LockedManaBalance` combines the two tables. The window September-October
  is summed and gets a 15% bonus. The window November-December-January is
  summed and gets a 10% bonus. Each window sum is floored once. Every
  district entry, under any key, is then added at face value.
  `LockedManaBalanceOf` fills both tables from the two row lists and
  combines them.

Everything lives in one module, `AddressService`, in `AddressService.dfy`.
Tables are `map<int, int>`. `FillByMonth` is a method with the source's two
loops: the twelve zero months, then the rows. It is proved equal to the
specification function `FilledTable`, and the lemmas about `FilledTable`
state what the table holds. `TableTotal` is the sum of all values of a
table (the `Object.values(...).reduce` of the source). It takes keys in
ascending order, and `TableTotalRemove` shows the order does not matter.
The bonuses are exact integer arithmetic: `amount * percent / 100`, where
Dafny's `/` by a positive divisor is the floor, so it agrees with
`Math.floor` on negative window sums too.

Nothing clamps the result: a window sum is negative when the district
amounts of its months exceed the totals, and the whole figure can then be
negative (`TotalForMonthsCanBeNegative`,
`DistrictsAboveTotalsGoNegative`).

## Model

| member | source | states |
|---|---|---|
| `AddressService.ZerosUpTo` | src/lib/services/AddressService.js:51-55 | the table built by the reduce has exactly the keys 1..n, all 0 |
| `AddressService.ZeroTable` | src/lib/services/AddressService.js:51-55 | the starting table has exactly the keys 1..12, all 0 |
| `AddressService.FilledTable` | src/lib/services/AddressService.js:50-61 | the filled table has every month 1..12 and the month of every row as keys |
| `AddressService.FillByMonth` | src/lib/services/AddressService.js:50-61 | the method's two loops build exactly the table `FilledTable(rows)`, which covers all twelve months |
| `AddressService.FilledTableKeys` | src/lib/services/AddressService.js:51-59 | a key is in the table if and only if it is a month 1..12 or some row reports it |
| `AddressService.FilledTableDefaultsToZero` | src/lib/services/AddressService.js:51-55 | a month 1..12 that no row reports is 0 |
| `AddressService.FilledTableLastRowWins` | src/lib/services/AddressService.js:57-59 | a row that no later row overrides sets its month's entry to its own mana |
| `AddressService.RepeatedMonthOverwrites` | src/lib/services/AddressService.js:57-59 | two rows for the same month leave the second row's mana; the values are not summed |
| `AddressService.TableTotalRemove` | src/lib/services/AddressService.js:37-39 | every entry of a table, under any key, counts exactly once in the table total |
| `AddressService.TableTotalUpdate` | src/lib/services/AddressService.js:37-39 | setting one entry changes the table total by exactly the change in that entry |
| `AddressService.TableTotal` | src/lib/services/AddressService.js:37-39 | the sum of all values of a table is 0 for a table of zeros and never negative when no entry is |
| `AddressService.TotalForMonths` | src/lib/services/AddressService.js:63-75 | the left-to-right running sum equals the sum of the listed total amounts minus the sum of the listed district amounts; an empty list gives 0 |
| `AddressService.TotalForMonthsMonotone` | src/lib/services/AddressService.js:68-74 | the running sum grows with each listed month's difference and reads no other month |
| `AddressService.TotalForMonthsCanBeNegative` | src/lib/services/AddressService.js:68-74 | nothing clamps the running sum: a district amount above the total gives a negative result |
| `AddressService.ApplyBonus` | src/lib/services/AddressService.js:43-44 | the bonus is the largest integer not above amount times percent over 100 (the floor) |
| `AddressService.ApplyBonusMonotone` | src/lib/services/AddressService.js:43-44 | with a non-negative multiplier a larger window sum never gets a smaller bonus |
| `AddressService.ApplyBonusSuperadditive` | src/lib/services/AddressService.js:43-44 | flooring a window sum once never gives less than flooring each month separately |
| `AddressService.LockedManaBalanceOf` | src/lib/services/AddressService.js:13-47 | from the two row lists, the result is the combination of the two filled tables |
| `AddressService.LockedManaBalance` | src/lib/services/AddressService.js:25-46 | the result is floor((T9-D9+T10-D10)*1.15) + floor((T11-D11+T12-D12+T1-D1)*1.10) + the sum of every district entry |
| `AddressService.BalanceMonotoneInTotals` | src/lib/services/AddressService.js:42-46 | the result never decreases when total amounts of September..January grow |
| `AddressService.TotalsOutsideWindowsIgnored` | src/lib/services/AddressService.js:25-34 | total amounts of months 2..8, or of any key outside the windows, never change the result |
| `AddressService.DistrictOutsideWindowsAtFaceValue` | src/lib/services/AddressService.js:36-46 | a district entry outside both windows, under any key, moves the result by exactly its own change |
| `AddressService.WorkedExample` | src/lib/services/AddressService.js:25-46 | no district rows and totals Sep 100, Oct 200, Nov 300 give 345 + 330 + 0 = 675 |
| `AddressService.WindowFlooredOnce` | src/lib/services/AddressService.js:42-46 | totals Sep 10 and Oct 10 give 23, where flooring each month would give 22 |
| `AddressService.DistrictsAboveTotalsGoNegative` | src/lib/services/AddressService.js:25-46 | 50 locked to a September district and no totals give floor(-57.5) + 50 = -8 |

## Left out

- ApplyBonus: the source multiplies by the IEEE-754 doubles `1.15` and `1.1` (src/lib/services/AddressService.js:4-5, 43-44). The model uses the exact rational bonus. The two differ where the double product falls just below a whole number: in JavaScript `100 * 1.15` is `114.99999999999999`, so the source floors it to 114 where the model gives 115. Floating point is not modelled.
- The two database lookups (`DistrictEntry.getMonthlyLockedBalanceByAddress`, `LockedBalanceEvent.getMonthlyLockedBalanceByAddress`, lines 15-22) are persistence calls; their results are the parameters `districtRows` and `totalRows`. `LAND_MANA_COST` (line 3) is only passed to one of those queries and is not modelled.
- `parseInt(mana, 10)` (line 58): rows carry an `int` already. String parsing, and the `NaN` a malformed string would give, are not modelled.
- TotalForMonths: requires every listed month to be in both tables. In JavaScript a missing key reads `undefined` and the sum becomes `NaN`; the source only ever passes filled tables, which hold all twelve months.
- TableTotal: sums the keys in ascending order. JavaScript's `Object.values` lists array-index keys (0 to 2^32 - 2) in ascending order and every other key, such as a month of -1, in insertion order. The model does not follow that order; the sum does not depend on it (`TableTotalRemove`), as long as every sum stays below 2^53 (next line).
- TableTotal, TotalForMonths, LockedManaBalance: every addition in the source is a double addition (the `parseInt` results, the reduce at lines 68-74 and the reduce at lines 37-39), exact only while every partial sum stays below 2^53 in magnitude. The model uses unbounded integers, so it does not capture the rounding of sums beyond 2^53.
- `async`/`await`, and the wiring of the class: the static method reads `this.DistrictEntry`, which only the constructor sets on instances (lines 8-10 and 13-15). The model takes the row lists directly.
- src/lib/models/AddressState.js and src/lib/models/index.js are SQL row shaping and re-exports; webapp/src/lib/api.js is an HTTP wrapper; webapp/src/components and webapp/src/containers are the user interface. None of them is part of this model.
- The bid ledger, the 25% minimum increase, the 30-hour deadline extension and the release of outbid funds appear only as user-facing text in the web app (webapp/src/components/modals/IntroModal.js, webapp/src/components/FAQPage.js). Their implementation is not part of this model.
