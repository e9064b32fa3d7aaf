/** The pure parts of lib/transaction-actions.ts: the input guards of createTransaction
    and updateTransaction, the equal-split builder and the custom-split check. Session,
    database and framework calls are replaced by their outcomes, passed in as values.
    Amounts are integer cents. */
module TransactionActions {
  import opened Results
  import opened Calculations

  datatype TxError =
    | MissingFields      // "Title and amount are required"
    | NotMember          // "You are not a member of this group"
    | GroupClosed        // "Cannot add (edit) transactions ... closed group"
    | NoMembers          // "Group has no members"
    | SplitMismatch      // "Split amounts must equal the total amount"
    | NotFound           // "Transaction not found"
    | NoPermission       // "You don't have permission to edit this transaction"

  /** The fields of the form, already parsed: `amount` is None when `parseFloat` gives NaN,
      `customSplits` is None when the field is missing or empty. */
  datatype TransactionForm = TransactionForm(groupId: string, title: string, amount: Option<int>,
                                             splitType: string, customSplits: Option<seq<Split>>)

  /** `> 0.01` on amounts in cents. */
  const Tolerance: int := 1

  // ---------------------------------------------------------------------------
  // Equal split
  // ---------------------------------------------------------------------------

  /** `parseFloat((amount / n).toFixed(2))` in cents: `amount / n` rounded to the nearest
      cent, halves away from zero. */
  function ShareOf(amount: int, n: int): (q: int)
    requires n > 0
    ensures 2 * Abs(amount - q * n) <= n
    ensures 2 * Abs(amount - q * n) == n ==> Abs(q * n) > Abs(amount)
    ensures amount >= 0 ==> q >= 0
    ensures amount <= 0 ==> q <= 0
  {
    if amount >= 0 then
      var q := (2 * amount + n) / (2 * n);
      RoundUpBounds(amount, n);
      HalfAway(amount, n, q, q * n);
      q
    else
      var p := (2 * -amount + n) / (2 * n);
      RoundUpBounds(-amount, n);
      NegatedProduct(p, n);
      HalfAway(amount, n, -p, -p * n);
      -p
  }

  lemma NegatedProduct(p: int, n: int)
    ensures -p * n == -(p * n)
  {
  }

  /** The bounds the rounding leaves, with the product `m` of quotient and divisor: the
      amount is within half a divisor of `m`, and a tie lies further from zero. */
  lemma HalfAway(amount: int, n: int, q: int, m: int)
    requires n > 0
    requires amount >= 0 ==> q >= 0 && -n <= 2 * (amount - m) < n
    requires amount <= 0 ==> q <= 0
    requires amount < 0 ==> -n < 2 * (amount - m) <= n
    ensures 2 * Abs(amount - m) <= n
    ensures 2 * Abs(amount - m) == n ==> Abs(m) > Abs(amount)
    ensures amount >= 0 ==> q >= 0
    ensures amount <= 0 ==> q <= 0
  {
  }

  /** `(2a + n) div 2n` is `a / n` rounded to the nearest integer, halves up. */
  lemma RoundUpBounds(a: int, n: int)
    requires a >= 0 && n > 0
    ensures var q := (2 * a + n) / (2 * n);
      q >= 0 && -n <= 2 * (a - q * n) < n && (a == 0 ==> q == 0)
  {
    var q, r := (2 * a + n) / (2 * n), (2 * a + n) % (2 * n);
    assert 2 * a + n == q * (2 * n) + r && 0 <= r < 2 * n;
    assert q * (2 * n) == 2 * (q * n);
  }

  /** `groupMembers.map(...)`: every member but the last owes the rounded share, the last
      owes what is left, so that the splits add up to the amount exactly. No members, no
      splits. */
  function EqualSplit(amount: int, members: seq<string>): (r: seq<Split>)
    ensures members != [] ==> SplitTotal(r) == amount
  {
    if members == [] then []
    else
      var n := |members|;
      var share := ShareOf(amount, n);
      var r := seq(n, i requires 0 <= i < n => Split(members[i], if i == n - 1 then amount - share * (n - 1) else share));
      UniformTotal(r[..n - 1], share);
      assert r == r[..n - 1] + [r[n - 1]];
      r
  }

  /** One split per member, in member order; all but the last get the rounded share. */
  lemma EqualSplitShape(amount: int, members: seq<string>)
    ensures |EqualSplit(amount, members)| == |members|
    ensures forall i | 0 <= i < |members| :: EqualSplit(amount, members)[i].userId == members[i]
    ensures forall i | 0 <= i < |members| - 1 :: EqualSplit(amount, members)[i].amount == ShareOf(amount, |members|)
  {
  }

  lemma {:induction false} UniformTotal(splits: seq<Split>, share: int)
    requires forall i | 0 <= i < |splits| :: splits[i].amount == share
    ensures SplitTotal(splits) == share * |splits|
  {
    if splits != [] {
      UniformTotal(splits[..|splits| - 1], share);
    }
  }

  /** The last member's share is within half the member count (in cents) of the others'. */
  lemma EqualSplitLastNear(amount: int, members: seq<string>)
    requires members != []
    ensures var r := EqualSplit(amount, members);
      2 * Abs(r[|r| - 1].amount - ShareOf(amount, |members|)) <= |members|
  {
    var n := |members|;
    var share := ShareOf(amount, n);
    assert EqualSplit(amount, members)[n - 1].amount == amount - share * (n - 1);
    assert share * (n - 1) + share == share * n;
  }

  /** The last share is not promised to be non-negative: 2 cents over four members
      rounds each share up to 1 cent and leaves the last member -1. */
  lemma EqualSplitLastCanBeNegative()
    ensures EqualSplit(2, ["a", "b", "c", "d"])[3].amount == -1
  {
    assert ShareOf(2, 4) == 1;
  }

  // ---------------------------------------------------------------------------
  // Custom split
  // ---------------------------------------------------------------------------

  /** The check shared by create and update: the submitted splits are refused when their
      total is more than a cent away from the amount, and otherwise kept as they are. */
  function CheckCustomSplits(amount: int, splits: seq<Split>): (r: Result<seq<Split>, TxError>)
    ensures r.Failure? <==> Abs(SplitTotal(splits) - amount) > Tolerance
    ensures r.Failure? ==> r.error == SplitMismatch
    ensures r.Success? ==> r.value == splits
  {
    if Abs(SplitTotal(splits) - amount) > Tolerance then Failure(SplitMismatch) else Success(splits)
  }

  /** A custom split was submitted and misses the amount by more than a cent. */
  predicate CustomMismatch(amount: int, splitType: string, customSplits: Option<seq<Split>>) {
    splitType == "custom" && customSplits.Some? && Abs(SplitTotal(customSplits.value) - amount) > Tolerance
  }

  /** The splits that replace a transaction's splits: an equal split over the members, the
      submitted custom splits when they add up, and otherwise none at all. */
  function NewSplits(amount: int, members: seq<string>, splitType: string, customSplits: Option<seq<Split>>)
    : (r: Result<seq<Split>, TxError>)
    ensures r.Failure? <==> CustomMismatch(amount, splitType, customSplits)
    ensures r.Failure? ==> r.error == SplitMismatch
    ensures r.Success? && splitType == "equal" ==>
      r.value == EqualSplit(amount, members) && (members != [] ==> SplitTotal(r.value) == amount)
    ensures r.Success? && splitType == "custom" && customSplits.Some? ==>
      r.value == customSplits.value && Abs(SplitTotal(r.value) - amount) <= Tolerance
    ensures splitType != "equal" && !(splitType == "custom" && customSplits.Some?) ==> r == Success([])
  {
    if splitType == "equal" then Success(EqualSplit(amount, members))
    else if splitType == "custom" && customSplits.Some? then CheckCustomSplits(amount, customSplits.value)
    else Success([])
  }

  // ---------------------------------------------------------------------------
  // createTransaction and updateTransaction
  // ---------------------------------------------------------------------------

  /** `!groupId || !title || !amount || amount <= 0` fails. */
  predicate FieldsPresent(form: TransactionForm) {
    form.groupId != "" && form.title != "" && form.amount.Some? && form.amount.value > 0
  }

  /** createTransaction: the session user pays. The guards run in order: missing fields or
      a non-positive amount, not a member, a closed group, no members; then the splits.
      A custom split that misses the amount leaves no transaction behind. */
  function CreateTransaction(form: TransactionForm, payer: string, isMember: bool, groupClosed: bool,
                             members: seq<string>): (r: Result<Transaction, TxError>)
    ensures r == Failure(MissingFields) <==> !FieldsPresent(form)
    ensures r == Failure(NotMember) <==> FieldsPresent(form) && !isMember
    ensures r == Failure(GroupClosed) <==> FieldsPresent(form) && isMember && groupClosed
    ensures r == Failure(NoMembers) <==> FieldsPresent(form) && isMember && !groupClosed && members == []
    ensures r.Success? ==>
      && FieldsPresent(form) && isMember && !groupClosed && members != []
      && r.value.paidById == payer && r.value.amount == form.amount.value
    ensures r.Success? && form.splitType == "equal" ==>
      r.value.splits == EqualSplit(form.amount.value, members) && SplitTotal(r.value.splits) == r.value.amount
    ensures r.Success? && form.splitType == "custom" && form.customSplits.Some? ==>
      r.value.splits == form.customSplits.value && Abs(SplitTotal(r.value.splits) - r.value.amount) <= Tolerance
    ensures r.Success? && form.splitType != "equal" && !(form.splitType == "custom" && form.customSplits.Some?) ==>
      r.value.splits == []
    ensures r == Failure(SplitMismatch) <==>
      && FieldsPresent(form) && isMember && !groupClosed && members != []
      && CustomMismatch(form.amount.value, form.splitType, form.customSplits)
    ensures r.Success? <==>
      && FieldsPresent(form) && isMember && !groupClosed && members != []
      && !CustomMismatch(form.amount.value, form.splitType, form.customSplits)
    ensures r != Failure(NotFound) && r != Failure(NoPermission)
  {
    if !FieldsPresent(form) then Failure(MissingFields)
    else if !isMember then Failure(NotMember)
    else if groupClosed then Failure(GroupClosed)
    else if members == [] then Failure(NoMembers)
    else
      var amount := form.amount.value;
      match NewSplits(amount, members, form.splitType, form.customSplits)
        case Failure(e) => Failure(e)
        case Success(splits) => Success(Transaction(payer, amount, splits))
  }

  /** What a created transaction does to the balances: an equal split moves no money out
      of nowhere, a custom split at most a cent, and a transaction without splits credits
      its payer the whole amount. */
  lemma CreatedImbalance(form: TransactionForm, payer: string, isMember: bool, groupClosed: bool,
                         members: seq<string>)
    requires CreateTransaction(form, payer, isMember, groupClosed, members).Success?
    ensures var t := CreateTransaction(form, payer, isMember, groupClosed, members).value;
      && (form.splitType == "equal" ==> Imbalance([t]) == 0 && SplitsExact([t]))
      && (form.splitType == "custom" && form.customSplits.Some? ==> Abs(Imbalance([t])) <= Tolerance)
      && (t.splits == [] ==> Imbalance([t]) == t.amount && t.amount > 0)
  {
    var t := CreateTransaction(form, payer, isMember, groupClosed, members).value;
    assert [t][..0] == [];
  }

  /** updateTransaction: not found, neither creator nor admin, a closed group; then the
      old splits are replaced. The amount is not checked again and an empty member
      list yields no equal splits. */
  function UpdateTransaction(found: bool, isCreator: bool, isAdmin: bool, groupClosed: bool,
                             members: seq<string>, amount: int, splitType: string,
                             customSplits: Option<seq<Split>>): (r: Result<seq<Split>, TxError>)
    ensures r == Failure(NotFound) <==> !found
    ensures r == Failure(NoPermission) <==> found && !isCreator && !isAdmin
    ensures r == Failure(GroupClosed) <==> found && (isCreator || isAdmin) && groupClosed
    ensures r.Success? && splitType == "equal" ==>
      r.value == EqualSplit(amount, members) && (members != [] ==> SplitTotal(r.value) == amount)
    ensures r.Success? && splitType == "custom" && customSplits.Some? ==>
      r.value == customSplits.value && Abs(SplitTotal(r.value) - amount) <= Tolerance
    ensures r.Success? && splitType != "equal" && !(splitType == "custom" && customSplits.Some?) ==>
      r.value == []
    ensures r == Failure(SplitMismatch) <==>
      found && (isCreator || isAdmin) && !groupClosed && CustomMismatch(amount, splitType, customSplits)
    ensures r.Success? <==>
      found && (isCreator || isAdmin) && !groupClosed && !CustomMismatch(amount, splitType, customSplits)
    ensures r != Failure(MissingFields) && r != Failure(NotMember) && r != Failure(NoMembers)
  {
    if !found then Failure(NotFound)
    else if !isCreator && !isAdmin then Failure(NoPermission)
    else if groupClosed then Failure(GroupClosed)
    else NewSplits(amount, members, splitType, customSplits)
  }

  /** Creation and update apply the same split rule to the same inputs. */
  lemma CreateAndUpdateAgree(form: TransactionForm, payer: string, members: seq<string>)
    requires CreateTransaction(form, payer, true, false, members).Success?
    ensures UpdateTransaction(true, true, false, false, members, form.amount.value, form.splitType, form.customSplits)
            == Success(CreateTransaction(form, payer, true, false, members).value.splits)
  {
  }
}
