# Split-bill balance engine, modelled in Dafny

This project models the part of Spilt-tool that keeps a group's books.
Spilt-tool is a shared-expense ("split the bill") web application.

- **Balances.** Expenses (transactions with per-member splits) and settlements fold into one signed net balance per member. It is positive when the group owes the member and negative when the member owes the group.
- **Debt simplification.** A greedy two-cursor matcher turns the balances into a short list of suggested payments.
- **Single-member balance.** A one-member version of the fold guards member removal.
- **Transaction actions.** The equal-split builder and the custom-split check of the create and update transaction actions.
- **Group actions.** The group-name check and invitee-list parsing of the create group action, and the guards of the remove member action.

Money is modelled as integer cents, which has these consequences:

- `toFixed(2)` is the identity.
- The `0.001` near-zero snap leaves only an exact 0 to snap.
- The `> 0.001` and `< -0.001` filters become `> 0` and `< 0`.
- The `balance < 0.001` cursor test becomes `<= 0`.
- The `0.01` tolerances become "more than one cent" (`Tolerance` and `BalanceTolerance`).

The only real rounding step is `amount / n` in the equal split. `ShareOf` rounds it to the nearest cent, with halves away from zero. This is what `Number.prototype.toFixed` does on an exact value: it picks the larger candidate for the magnitude and puts the sign back.

The project has five files:

- `results.dfy` (module `Results`): `Option`, `Result` and `Abs`.
- `sequences.dfy` (module `Sequences`): the `Subsequence` order that the filters keep.
- `calculations.dfy` (module `Calculations`): `lib/calculations.ts`, plus the one place that chains its two functions.
  - `CalculateNetBalances` and `CalculateGroupBalance` are methods with loops. They are proved equal to the functions `NetBalance` and `GroupBalance`.
  - `SimplifyDebts` filters and sorts the creditors and debtors as sequences, then `WorkingCopies` clones the sorted lists into fresh arrays. `Settle` then runs the two-cursor loop, lowering the balances in those arrays in place. The input is a `seq`, so it cannot be changed.
  - The loop state is the predicate `Progress`. `Advance` proves that one turn keeps it and moves a cursor, which also gives termination.
- `transaction_actions.dfy` (module `TransactionActions`): the validation and split logic of `createTransaction` and `updateTransaction`. Database state such as membership, group status, member list, creator and role comes in as parameters.
- `group_actions.dfy` (module `GroupActions`): JavaScript's `trim` and `split(",")`, username parsing (`ParseUsernames`), `ValidateGroupName`, `CreateGroup` and `RemoveMemberFromGroup`.

## Model

| member | source | states |
|---|---|---|
| Calculations.CalculateNetBalances | lib/calculations.ts:23-85 | one entry per user, in order, copying id, username and name, with that user's net balance; if ids are distinct and every reference is to a user, the entries sum to the splits' total shortfall, so to 0 when every transaction's splits sum to its amount |
| Calculations.ApplyTransactions | lib/calculations.ts:47-58 | after the transaction loop every id's accumulator has grown by that id's net effect of the transactions |
| Calculations.DebitSplits | lib/calculations.ts:55-57 | after the split loop every id's accumulator has dropped by what the splits charge to that id |
| Calculations.ApplySettlements | lib/calculations.ts:61-70 | after the settlement loop every id's accumulator has grown by what it paid and dropped by what it received |
| Calculations.Conservation | lib/calculations.ts:47-74 | over distinct ids covering every payer, split user, settlement payer and receiver, net balances sum to the transactions' split shortfall, and to zero for exact splits |
| Calculations.AddTransaction | lib/calculations.ts:47-58 | one more transaction adds its amount to the payer and subtracts every split of a user from that user; both apply when the payer also has a split |
| Calculations.AddSettlement | lib/calculations.ts:61-70 | one more settlement adds its amount to the payer and subtracts it from the receiver |
| Calculations.UninvolvedIsZero | lib/calculations.ts:42-74 | a user that no transaction or settlement mentions keeps the initial balance 0 |
| Calculations.Creditors | lib/calculations.ts:93-95 | the creditors are exactly the entries with a positive balance |
| Calculations.Debtors | lib/calculations.ts:97-99 | the debtors are exactly the entries with a negative balance, with the balance made positive |
| Calculations.CreditorsFilter | lib/calculations.ts:93-95 | the creditors keep input order (a subsequence of the balances) and every copy: each positive entry occurs as often as in the input, any other not at all |
| Calculations.DebtorsAreNegatedCreditors | lib/calculations.ts:97-99 | filtering the negative entries and then making them positive is negating every entry and then keeping the positive ones |
| Calculations.DebtorsFilter | lib/calculations.ts:97-99 | the debtors keep input order (a subsequence of the negated balances) and every copy of an owing entry |
| Calculations.SortDesc | lib/calculations.ts:96-100 | the sorted list is a permutation of its input, largest balance first |
| Calculations.InsertStable | lib/calculations.ts:96-100 | an inserted entry lands ahead of every entry with its own balance and leaves the others' order alone |
| Calculations.SortDescStable | lib/calculations.ts:96-100 | the sort is stable: for every balance, the entries with that balance keep their input order; with the permutation and descending order this fixes the sorted list, and so the order of the suggested payments |
| Calculations.WorkingCopies | lib/calculations.ts:93-100 | fresh, distinct arrays holding the sorted creditors and debtors, all non-negative, with distinct ids when the input has them |
| Calculations.Settle | lib/calculations.ts:102-138 | the loop changes only its two working arrays; when it ends one cursor is exhausted and the loop state `Progress` holds |
| Calculations.Advance | lib/calculations.ts:106-136 | each turn of the loop (skip a zero creditor, skip a zero debtor, or pay the smaller balance) keeps the loop state and advances at least one cursor |
| Calculations.PayKeeps | lib/calculations.ts:119-135 | paying `min(creditor, debtor)` emits a positive debt from the debtor to the creditor, lowers both balances by it and zeroes at least one side |
| Calculations.ProgressAtExit | lib/calculations.ts:106 | at loop exit one whole side is zero, both sides paid down the same total, and there are fewer debts than entries |
| Calculations.MatchShape | lib/calculations.ts:121-128 | every debt runs from an entry that owes to one that is owed, so not to oneself when equal ids have equal balances |
| Calculations.EntrySettled | lib/calculations.ts:119-132 | with distinct ids, recording the debts moves each balance toward zero and never past it, and exactly to zero once both sides are exhausted |
| Calculations.ExhaustedSettlesAll | lib/calculations.ts:106-136 | for zero-sum input, once one side is exhausted the other is too |
| Calculations.SimplifyDebts | lib/calculations.ts:91-139 | every amount is positive; every debt runs from a debtor to a creditor; no self-debts for consistent input; fewer than creditors + debtors debts; `[]` when either side is empty; with distinct ids no balance is overpaid, and zero-sum balances are cancelled exactly |
| Calculations.FindSplit | lib/calculations.ts:168 | no match exactly when no split has the id; a match is one of the splits and has the id |
| Calculations.FindSplitFirst | lib/calculations.ts:168 | the match is the first split with the id |
| Calculations.CalculateGroupBalance | lib/calculations.ts:144-186 | the payer's amounts, minus the first split of the member in each transaction, plus settlements paid, minus settlements received; equal to the net balance when no transaction splits twice to the member |
| Calculations.FoundDebitIsSplitDebit | lib/calculations.ts:168-171 | with at most one split of the member, the first split is all the splits charge to the member |
| Calculations.GroupBalanceIsNet | lib/calculations.ts:163-182 | with at most one split per member per transaction, the single-member balance is the member's net balance |
| Calculations.GroupBalanceCountsFirstSplitOnly | lib/calculations.ts:168-171 | a transaction that splits 300 and 400 to one member charges 300 in the single-member balance and 700 in the net balance |
| Calculations.SummarizeGroup | components/balances/BalanceSummary.tsx:36-37 | the member balances and the suggested payments: for distinct members there are no self-payments and no overpaid balance; with exact splits among members the payments settle everyone to zero |
| TransactionActions.ShareOf | lib/transaction-actions.ts:78 | the share is `amount / n` to the nearest cent (n times the share is within n/2 cents of the amount); a tie goes away from zero; the sign of the amount is kept |
| TransactionActions.EqualSplit | lib/transaction-actions.ts:76-95 | for a non-empty member list the splits sum exactly to the amount |
| TransactionActions.EqualSplitShape | lib/transaction-actions.ts:79-95 | one split per member, in member order, and every member but the last owes the rounded share |
| TransactionActions.EqualSplitLastNear | lib/transaction-actions.ts:80-89 | the last member's amount differs from the share by at most half the member count, in cents |
| TransactionActions.EqualSplitLastCanBeNegative | lib/transaction-actions.ts:80-89 | 2 cents over four members leaves the last member -1 cent |
| TransactionActions.CheckCustomSplits | lib/transaction-actions.ts:103-117 | refused with the split-mismatch error exactly when the total is more than a cent away from the amount; otherwise the splits are kept |
| TransactionActions.NewSplits | lib/transaction-actions.ts:76-118 | refused with the split-mismatch error exactly for custom splits more than a cent off; an equal split is `EqualSplit` and exact; custom splits that add up are kept; any other split type gives no splits |
| TransactionActions.CreateTransaction | lib/transaction-actions.ts:23-118 | each refusal happens exactly when its guard is the first to fail (missing field or non-positive amount, not a member, closed group, no members, split mismatch), and success exactly when none fails; the update-only errors never occur; on success the session user pays the amount; equal splits are `EqualSplit` and exact; custom splits are kept and within a cent; any other split type gives no splits |
| TransactionActions.CreatedImbalance | lib/transaction-actions.ts:76-118 | an equal split has no imbalance, a custom split at most a cent, and a transaction without splits credits its payer the whole amount |
| TransactionActions.UpdateTransaction | lib/transaction-actions.ts:153-228 | not found, no permission (neither creator nor admin), closed group and split mismatch each happen exactly when that guard is the first to fail, and success exactly when none fails; the create-only errors never occur; new equal or custom splits as at creation, and no splits at all for any other split type |
| TransactionActions.CreateAndUpdateAgree | lib/transaction-actions.ts:76-118 | an update by the creator with the creation's form yields the creation's splits |
| GroupActions.LeadingBlanks | lib/group-actions.ts:47 | the count of leading characters that are all whitespace, followed by a character that is not |
| GroupActions.TrailingBlanks | lib/group-actions.ts:47 | the count of trailing characters that are all whitespace, preceded by a character that is not |
| GroupActions.Trim | lib/group-actions.ts:47 | the result is a slice with only whitespace cut at either end, and it neither starts nor ends with whitespace |
| GroupActions.TrimEmptyIffBlank | lib/group-actions.ts:20 | a string trims to nothing exactly when it is all whitespace |
| GroupActions.TrimIdempotent | lib/group-actions.ts:47 | trimming twice is trimming once |
| GroupActions.SplitComma | lib/group-actions.ts:46 | at least one piece, and no piece contains a comma |
| GroupActions.AddChar | lib/group-actions.ts:46 | one more character: the pieces stay comma-free and there is still at least one |
| GroupActions.JoinAddChar | lib/group-actions.ts:46 | joining after one more character is joining before it, followed by the character |
| GroupActions.JoinSplit | lib/group-actions.ts:46 | re-joining the pieces with commas gives back the string |
| GroupActions.SplitJoin | lib/group-actions.ts:46 | splitting the comma-join of comma-free pieces gives back the pieces |
| GroupActions.TrimAll | lib/group-actions.ts:47 | piece i of the result is piece i trimmed |
| GroupActions.KeepInvitees | lib/group-actions.ts:48 | a name is kept exactly when it is non-empty and not the creator's |
| GroupActions.KeepInviteesSubsequence | lib/group-actions.ts:48 | the kept names are a subsequence of the input, in order |
| GroupActions.ParseUsernames | lib/group-actions.ts:44-48 | the invitee list is always the split, trimmed and filtered pieces, so the blank-field guard changes nothing; no invitee is empty or the creator |
| GroupActions.BlankFieldKeepsNone | lib/group-actions.ts:44-48 | a blank field splits into pieces that all trim to nothing, so split, trim and filter give no names either |
| GroupActions.ParseUsernamesMembers | lib/group-actions.ts:45-48 | a username is invited exactly when it is the trimmed form of some comma-separated piece, is non-empty and is not the creator's |
| GroupActions.ParseUsernamesOrder | lib/group-actions.ts:45-48 | the invitees are a subsequence of the trimmed pieces, in typed order |
| GroupActions.ParseUsernamesClean | lib/group-actions.ts:45-48 | every invitee is already trimmed and contains no comma |
| GroupActions.ValidateGroupName | lib/group-actions.ts:20-28 | refused exactly when the name is empty or all whitespace; otherwise the trimmed name, non-empty with no whitespace at either end |
| GroupActions.CreateGroup | lib/group-actions.ts:16-48 | refused exactly when the name is blank; otherwise the group is named by the trimmed name, the creator is the admin, and the invitees are exactly the parsed username list: the non-empty trimmed pieces other than the creator's |
| GroupActions.RemoveMemberFromGroup | lib/group-actions.ts:163-205 | refused in guard order: not an admin, a closed group, removing oneself, then (if the group's data is found) a group balance above one cent; a removed member's group balance, and net balance when no transaction splits twice to them, is within a cent of zero |

## Left out

- Sessions, redirects, `revalidatePath`, Prisma and the try/catch around database calls. These are I/O. Membership, admin role, creator, group status, "found" and the member list are parameters instead. The generic "Failed to ..." error paths are not modelled.
- Writing rows: creating the group, member and transaction records, deleting the transaction after a split mismatch, and the update's deletion of old splits before validation. These are persistence ordering, not logic.
- The lookup of invitees by username in `createGroup`. It is a database query that silently drops unknown names, so `CreateGroup` stops at the list of usernames to look up.
- Trimming and storing the description, title, category and notes fields. These are stored values with no effect on balances.
- `addMemberToGroup`, `updateGroup`, `closeGroup`, `deleteTransaction`, `lib/settlement-actions.ts` and `lib/auth-actions.ts`. These are lookups and writes with trivial guards; sign-up also hashes passwords with bcrypt, a foreign call.
- React components and pages. These are UI. The one exception is the two-line chaining of balances into debts, which is modelled as `SummarizeGroup`.
- IEEE-754 floating point. Money is exact integer cents, so the 0.001 snap, the float edge of the 0.01 tolerance and `toFixed` halfway quirks on inexact values do not arise. Sub-cent custom amounts cannot be written.
- JSON parsing of the custom splits, and `parseFloat` of the amount. The form carries an already-parsed split list and `Option<int>` for the amount (None for NaN). The per-entry `toFixed(2)` of accepted custom splits is the identity in cents.
- UpdateTransaction: the amount is not re-validated, as in the source. A NaN amount and the resulting NaN equal shares are not modelled.
- Calculations.SimplifyDebts: the per-user flow properties (no overshoot, exact cancellation) are stated for distinct user ids. Distinct ids hold for a group's members; `Consistent` is enough for the no-self-debt property.
