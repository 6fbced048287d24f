# Nexus habit-streak and expense-balance helpers, in Dafny

This project models the two calculation helpers of the Nexus launchpad,
`calculateStreak` and `calculateBalances` in `src/utils.js`, and proves
properties about them.

- **Streak** (`streak.dfy`). A habit stores its completions as whole-day
  indices counted from its creation instant. `CalculateStreak` works out
  today's index from two millisecond timestamps, rounding down. It drops the
  completions later than today and sorts the rest in descending order. It
  returns 0 when nothing is left or when the newest completion is older than
  yesterday. Otherwise it counts the run of consecutive days from the top
  and stops at the first gap or repeated day. The filter and the sort are
  functions (`NotFuture`, `SortDesc`). The counting loop is a method whose
  loop invariant ties the counter to `TopRun`, the length of the longest
  prefix in which each day is one less than the one before.
  `StreakOf` is the specification of the whole computation.
- **Balances** (`balances.dfy`). An expense has a payer, an amount and the
  people it is split between. `CalculateBalances` updates one map from
  person to balance inside two nested loops. Each expense credits the payer
  with the amount and debits each listed person `amount / |splitBetween|`,
  once per listing, the payer included when listed. A person with no
  balance yet starts at 0. The specification function `BalancesOf` applies
  the expenses in list order.

The main results are as follows:
- The streak is positive exactly when today or yesterday was completed.
- The streak depends only on the multiset of completions.
- Adding a future completion changes nothing.
- Every day the streak counts was actually completed, so a repeated day never
  lengthens it.
- The balance map has a key for exactly the payers and split participants,
  and each balance is the sum of the per-expense changes.
- The balances sum to zero when every expense is split between at least one person.
- The result does not depend on the order of the expenses.

## Model

| member | source | states |
|---|---|---|
| `Streak.TodayIndex` | src/utils.js:16-17 | today's index is the floor of the elapsed milliseconds over one day: `today * 86400000 <= now - created < (today + 1) * 86400000` |
| `Streak.NotFuture` | src/utils.js:20 | the kept completions are all `<= today`, and each value up to today keeps its exact multiplicity from the input, while later values are dropped |
| `Streak.SortDesc` | src/utils.js:20 | the sorted sequence is in descending order and is a permutation (same multiset) of its input |
| `Streak.DescendingUnique` | src/utils.js:20 | two descending sequences with the same multiset are equal, so the sorted list is determined by the completions alone |
| `Streak.NotFutureMembers` | src/utils.js:20 | a value survives the filter exactly when it is a completion and is not later than today |
| `Streak.TopRun` | src/utils.js:29-36 | the run is at least 1 for a non-empty list, never longer than the list, each element inside it is one less than its predecessor, and the element just after it is not (the run is the longest such prefix) |
| `Streak.RunValues` | src/utils.js:31 | inside the run the k-th day is exactly k days before the newest |
| `Streak.CalculateStreak` | src/utils.js:12-38 | missing completions give 0; otherwise the loop with early break returns exactly `StreakOf(completions, TodayIndex(created, now))` |
| `Streak.StreakBounded` | src/utils.js:29-37 | the streak never exceeds the number of non-future completions |
| `Streak.EmptyHasNoStreak` | src/utils.js:13 | an empty completion list gives a streak of 0 |
| `Streak.AllFutureHasNoStreak` | src/utils.js:20-22 | when every completion is later than today the streak is 0 |
| `Streak.StreakAliveIff` | src/utils.js:24-26 | the streak is positive if and only if today or yesterday is among the completions |
| `Streak.StreakDaysCompleted` | src/utils.js:28-36 | a positive streak of length n ends at a day `last` that is today or yesterday, and all n days from `last` down are completions, so duplicates never add to a streak |
| `Streak.StreakOrderIndependent` | src/utils.js:20 | two completion lists with the same multiset give the same streak |
| `Streak.FutureIgnored` | src/utils.js:20 | appending a completion later than today leaves the streak unchanged |
| `Streak.DuplicateEndsRun` | src/utils.js:31-35 | a repeated day ends the run: `[10, 10, 9]` on day 10 gives 1 |
| `Streak.ThreeDaysEndingToday` | tests/utils.test.js:13-20 | for every `now`, a habit created exactly ten days before `now` (today is day 10, on the day boundary) with completions 10, 9, 8 gives 3 |
| `Streak.TwoDaysEndingYesterday` | tests/utils.test.js:22-27 | completions 9, 8 on day 10 give 2 |
| `Streak.YesterdayMissed` | tests/utils.test.js:29-34 | completions 8, 7 on day 10 give 0 |
| `Streak.FutureCompletionDropped` | tests/utils.test.js:36-41 | completions 11, 10, 9 on day 10 give 2 |
| `Balances.CalculateBalances` | src/utils.js:45-63 | the nested loops that update the map in place, with the guard that starts a balance at 0, return exactly `BalancesOf(expenses)`, for every expense list, including one with an empty split list |
| `Balances.DebitAllKeys` | src/utils.js:56-59 | debiting a split list adds every listed person as a key and no one else |
| `Balances.DebitAllAt` | src/utils.js:56-59 | debiting a split list lowers each person's balance by what their listings owe and leaves everyone else's alone |
| `Balances.OwedCount` | src/utils.js:49-58 | a person listed k times owes k shares |
| `Balances.OccurrencesCount` | src/utils.js:56 | the per-listing count equals the person's multiplicity in the split list |
| `Balances.EmptySplitCreditsPayer` | src/utils.js:49-59 | an expense split between nobody credits the payer with the whole amount and changes no other balance, because the debit loop runs zero times |
| `Balances.ExpenseEffect` | src/utils.js:48-59 | one expense makes the payer and listed people keys, adds the amount to the payer and subtracts the share once per listing (payer included), and leaves every other balance unchanged |
| `Balances.BalancesContent` | src/utils.js:46-62 | the result's keys are exactly the payers and split participants, and each balance is the sum of the per-expense changes |
| `Balances.ExpenseConserves` | src/utils.js:49-59 | one expense leaves the sum of all balances unchanged |
| `Balances.BalancesSumToZero` | src/utils.js:46-62 | when every split list is non-empty the balances sum to exactly 0 |
| `Balances.NetPermutation` | src/utils.js:48-60 | the summed change to one person is the same for any reordering of the expenses |
| `Balances.BalancesOrderIndependent` | src/utils.js:46-62 | two expense lists with the same multiset give equal balance maps |
| `Balances.SimpleSplit` | tests/utils.test.js:45-59 | Alice paying 100 split between Alice and Bob gives Alice 50 and Bob -50 |
| `Balances.TwoExpensesNet` | tests/utils.test.js:61-80 | adding Bob paying 40 split between both gives Alice 30 and Bob -30 |

## Left out

- Parsing `createdAt` with `new Date(...)` and the default `now = new Date()` are not modelled. Both instants are integer millisecond timestamps passed in, so the clock is a parameter.
- JavaScript numbers are not modelled. Completion indices are mathematical integers, so non-integer, `NaN` or non-numeric entries in `completions` are outside the model.
- With an empty `split_between` list the source computes `perPerson` as `Infinity` or `NaN`, but never stores it, because the debit loop runs zero times. The model uses 0 for that unused share. Only the zero-sum law requires non-empty split lists, because an expense split between nobody raises the total by its amount.
- Amounts and shares are exact reals, so IEEE-754 rounding is not modelled. Over doubles, the zero sum and order independence hold only up to rounding. Over the reals they hold exactly.
- The `if (!balances[x]) balances[x] = 0` guard is modelled for absent keys and for a balance of exactly 0, which it resets to 0. A `NaN` balance, which the guard also resets, cannot arise over the reals.
- Plain-object semantics of `balances` are not modelled. A person whose name is inherited from `Object.prototype` (`toString`, `constructor`, `__proto__`) would make the guard see a non-number, and `+=` would then concatenate strings. In the model every name is an ordinary key.
- The key order of the returned object is not modelled: the result is an unordered map.
- `[...completions]` copies the array before the in-place `.sort`, so the caller's array is never changed. The model therefore treats the filter and sort as pure functions on sequences and specifies the sort by its result, not by the engine's sorting algorithm.
- `src/apps/launcher.js` (DOM rendering, modals, theme, drag reordering, clipboard, backend CRUD), `src/lib/supabase.js` (the hosted-backend and storage client) and `vite.config.js` (build settings) are not part of this model. They are I/O and presentation glue with no logic of their own to prove.
