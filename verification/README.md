# ExpenseResolve ledger — a Dafny model

ExpenseResolve is a browser app for shared expenses. A group has an ordered
member list and a log of expenses. Each expense records:

- who paid;
- the total;
- a `splits` mapping that says which other members owe the payer, and how much;
- a `settled` mapping of flags that mark a debtor's share as resolved.

The viewer is the logged-in member `"User"`. The app shows the viewer two
figures, "you owe" and "you are owed". It rebuilds both from the whole log each
time it displays them.

This project models the ledger and split engine in `script.js`:

- **Adding an expense.** The total is validated, then the splits are built
  under one of three strategies:
  - *equal*: every non-payer owes total / |members|;
  - *exact*: each non-payer owes the positive amount entered for them;
  - *percent*: each non-payer owes total * p / 100 for a positive percentage p.

  An exact split whose entries add up to more than the total is refused. So is
  a percent split whose entries add up to more than 100. On success exactly one
  record is appended, with an empty `settled` mapping.
- **Balances.** "You owe", the per-person "you are owed" map, and the total
  shown for that map.
- **Adding a member.** An empty name or a duplicate is refused; otherwise the
  name is appended.
- **The "remaining" figures.** The form shows these to the payer while exact
  amounts or percentages are being typed.

Inputs that the app reads from the page become explicit parameters:

- the split mode;
- the payer;
- the total, as `Option<real>`, where `None` is a non-numeric entry;
- the per-member entries, as a `map<string, real>`, where a missing key is a blank box (worth 0).

Amounts are exact `real`s.

Modules:

- `Amounts`: amount maps, their sums, pointwise merge.
- `Ledger`: the expense record, errors, split modes, the viewer.
- `Split`: the split strategies and the remaining figures.
- `Balance`: the balance queries.
- `Store`: the `Group` class, whose members and expenses change in place.
- `Scenarios`: worked cases on the seeded group.

The loops of the source are methods. Each method is proved equal to a
specification function, and the source's promises are proved about those
functions as lemmas.

The written description of the app and its code disagree in places; the model
follows the code:

- A member name made only of spaces is accepted, because only the empty string
  or a cancelled prompt is refused.
- The exact-mode running sum includes zero and negative entries (script.js:184).
  `Scenarios.NegativeExactEntryOvercommits` shows what this lets through.
- An expense counts toward "you owe" only when the viewer's split is non-zero
  (script.js:244).
- Amounts are not rounded to two decimals. Rounding happens only in display
  formatting.

## Model

| member | source | states |
|---|---|---|
| Store.Group.Seed | script.js:16-25 | the default group is "Trip to Goa" with members User, Alice, Bob and no expenses, and satisfies the group invariant |
| Store.Group.AddMember | script.js:103-116 | a cancelled or empty name fails with EmptyName, and a name already present fails with DuplicateMember; in both cases the members are unchanged. Any other name is appended at the end with earlier members in place. Expenses are never touched and member names stay distinct |
| Store.Group.AddExpense | script.js:149-233 | appends exactly the record `NewExpense` describes and reports Pass; on any refusal it reports that error and leaves the log unchanged; members never change and every logged expense stays well formed |
| Split.NewExpense | script.js:150-156 | a zero, negative or non-numeric total is refused with InvalidAmount. Otherwise the result is accepted exactly when the splits are, a refusal carries the split's error, and the record has the given id, payer and total, the computed splits and an empty settled map. It is well formed: positive total, payer not a debtor, every debt positive |
| Split.ComputeSplits | script.js:164-219 | refused exactly when an exact split's entries exceed the total (ExactExceedsTotal) or a percent split's entries exceed 100 (PercentExceeds100); otherwise the payer is never a key, only members are keys, and with a positive total every amount is positive |
| Split.EnteredSum | script.js:184 | the running sum the exact and percent loops keep over every non-payer entry, blank as 0; never negative when no entry is negative |
| Split.EqualSplits | script.js:165-171 | the keys are exactly the members other than the payer, and each owes a share that, taken \|members\| times, is the total |
| Split.ExactSplits | script.js:177-188 | the keys are exactly the non-payer members whose entry is positive, and each owes exactly their entry; zero, blank and negative entries are absent |
| Split.PercentSplits | script.js:201-213 | the keys are exactly the non-payer members whose percentage is positive, and each owes total * p / 100 of their percentage p |
| Split.FillEqual | script.js:164-172 | the equal-mode loop yields every non-payer member mapped to total / \|members\| and nothing else |
| Split.FillExact | script.js:174-188 | the exact-mode loop yields exactly the non-payer members with a positive entry, each mapped to that entry, and a running sum of every non-payer entry including non-positive ones |
| Split.FillPercent | script.js:198-213 | the percent-mode loop yields exactly the non-payer members with a positive percentage p, each mapped to total * p / 100, and the sum of every non-payer percentage |
| Split.EqualSplitsConserve | script.js:164-172 | with the payer among distinct members, the equal splits add up to the total less one share |
| Split.EnteredSumBound | script.js:184 | the running sum is at most the sum of the positive entries, and equals it when no entry is negative |
| Split.ExactSplitsSum | script.js:177-188 | over distinct members the exact splits add up to the sum of the positive entries |
| Split.ExactWithinTotal | script.js:190-195 | an accepted exact split with non-negative entries collects no more than the total, and the payer keeps the total less the running sum |
| Split.PercentSplitsSum | script.js:201-213 | over distinct members the percent splits add up to total times the positive percentages over 100 |
| Split.PercentWithinTotal | script.js:215-218 | an accepted percent split of a positive total with non-negative entries collects no more than the total |
| Split.ExactRemaining | script.js:326 | the leftover is never negative, is at least total minus the entries, and is either 0 or exactly that difference |
| Split.UpdateExactRemaining | script.js:307-332 | the exact-mode refresh loop yields the clamped leftover `ExactRemaining` |
| Split.ExactRemainingIsPayerShare | script.js:190-195 | with non-negative entries, the leftover shown equals the total less the stored splits when the expense would be accepted, and 0 when it would be refused |
| Split.PercentRemaining | script.js:359 | the leftover percentage is never negative, is at least 100 minus the entries, and is either 0 or exactly that difference |
| Split.PercentShown | script.js:352-356 | every non-payer member gets an amount shown, and for each member that will owe something that amount is exactly their split |
| Split.UpdatePercentRemaining | script.js:334-367 | the percent-mode refresh loop yields the per-member amounts, the clamped leftover percentage and the amount total * leftover / 100 |
| Split.PercentRemainingCompletes | script.js:359-360 | in an accepted percent split with non-negative entries, the leftover amount plus the splits make up the total |
| Balance.YouOwe | script.js:238-250 | the viewer's unsettled non-zero shares of expenses others paid; never negative over well-formed expenses |
| Balance.OweOn | script.js:244-245 | an expense adds to "you owe" only when someone else paid and the viewer's share is unsettled, and then it adds exactly the viewer's split; never negative on a well-formed expense |
| Balance.Unsettled | script.js:263-266 | the debts of an expense still counted toward "you are owed": exactly the debtors whose settled flag is not true, each with their split |
| Balance.GetYouOwe | script.js:238-250 | the scan over the log computes `YouOwe` |
| Balance.YouAreOwed | script.js:255-271 | over well-formed expenses the viewer is never a key and every amount is positive |
| Balance.OwedBreakdown | script.js:260-267 | a person is a key exactly when they have an unsettled split in some expense the viewer paid, and their amount is the sum of those splits |
| Balance.AddUnsettled | script.js:263-267 | the inner loop adds every unsettled debtor's amount to what the map holds for them (a pointwise merge) |
| Balance.GetYouAreOwed | script.js:255-271 | the scan over the log computes `YouAreOwed` |
| Balance.OwedTotalIsSum | script.js:280-281 | the sum of the per-person map is the sum, over expenses the viewer paid, of their unsettled splits |
| Balance.SumOwed | script.js:280-281 | the reduce loop computes the sum of the map's values |
| Balance.RenderBalances | script.js:276-285 | the two figures shown are `YouOwe` of the log and the total of the unsettled debts owed to the viewer |
| Balance.SettlingNeverRaisesBalances | script.js:244 | of two snapshots of a log that differ only in raised settlement flags, the later shows no larger "you owe" and no larger "you are owed" |
| Balance.EqualExpenseBalances | script.js:164-172 | adding an equal split among distinct members that include the viewer and the payer is accepted. If another member paid, "you owe" rises by one share; if the viewer paid, "you are owed" rises by the total less one share |
| Scenarios.EqualSplitScenario | script.js:164-172 | User pays 300 split equally: Alice and Bob owe 100 each, User is owed 200; with Alice settled only Bob's 100 remains owed |
| Scenarios.ExactSplitScenario | script.js:174-196 | Bob pays 90 with User 30 and Alice 20: both are stored, 40 remains for Bob, and User owes 30 |
| Scenarios.PercentOverflowScenario | script.js:215-218 | percentages 60 and 50 are refused with PercentExceeds100 |
| Scenarios.NegativeExactEntryOvercommits | script.js:184-195 | a total of 10 with entries 20 and -15 is accepted, yet the stored splits (Alice 20) exceed the total |

## Left out

- Page rendering is not modelled: the group list, member chips, payer drop-down, split form, tab switching and event listeners (script.js:47-98, 129-144, 290-301, 370-449). It is presentation only.
- Browser storage is not modelled: `initDB`, `getDB`, `saveDB` and the `localStorage.clear()` at start-up. Only the seeded default group is kept, as `Store.Group.Seed`.
- The app holds groups in a dictionary selected by the name of the open group. The model has one `Group` object; looking a group up by name is not modelled.
- `prompt` and `alert` are not modelled. The prompt's answer is the `Option<string>` parameter of `AddMember`, and each alert becomes an `Error` in the result.
- Ids and dates: `Date.now()` becomes an id supplied by the caller, and the `toLocaleString()` date is not stored.
- `toFixed(2)` display formatting is not modelled.
- JavaScript numbers are exact reals here. Floating-point rounding, `Infinity`, and `NaN` in a per-member entry are not modelled. A non-numeric total is modelled as `None`.
- The form can send only the three split modes. The model has exactly those three, so the app's behaviour for any other mode string is not modelled.
- The remaining-figure helpers start by checking the current mode and return early if it does not match. Callers in the model choose which helper to use, so that check is left out.
- The blank total that those helpers read as 0 is the caller passing `0.0`. The total is therefore a plain `real` there.
- The app iterates over JavaScript objects in some order. The model's sums over maps are order-independent, which is equivalent for exact reals.
- The code never writes settlement flags, so no settlement operation is modelled. Flags are given state, and `Balance.SettlingNeverRaisesBalances` compares two snapshots of a log.
- Balance.YouAreOwed: names that are properties every JavaScript object inherits (`constructor`, `toString`, `valueOf`, `hasOwnProperty` and the like) are not modelled. In the app, looking up such a name in an empty `settled` object finds the inherited property, so that debtor's share is skipped. The model treats it as unsettled and counts it.
- Split.ComputeSplits: the name `__proto__` is not modelled. In the app, storing a split under that name stores nothing. The model's `EqualSplits`, `ExactSplits` and `PercentSplits` give it a key like any other member.
