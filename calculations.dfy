/** The balance engine of lib/calculations.ts: one signed net balance per group
    member, and the single-member balance used by the member-removal guard.
    All amounts are integer cents. */
module Calculations {
  import opened Results
  import opened Sequences

  datatype User = User(id: string, username: string, name: string)
  datatype Split = Split(userId: string, amount: int)
  datatype Transaction = Transaction(paidById: string, amount: int, splits: seq<Split>)
  datatype Settlement = Settlement(paidById: string, receivedById: string, amount: int)

  /** Positive: the group owes this user; negative: this user owes the group. */
  datatype UserBalance = UserBalance(userId: string, username: string, name: string, balance: int)

  // ---------------------------------------------------------------------------
  // Specification of the fold
  // ---------------------------------------------------------------------------

  /** `balances.get(k) || 0` */
  function Get(m: map<string, int>, k: string): int {
    if k in m then m[k] else 0
  }

  /** The sum of the split amounts, as the `reduce` over a split list computes it. */
  function SplitTotal(splits: seq<Split>): int {
    if splits == [] then 0 else SplitTotal(splits[..|splits| - 1]) + splits[|splits| - 1].amount
  }

  /** What the splits of one transaction charge to `id` (every matching split counts). */
  function SplitDebit(id: string, splits: seq<Split>): int {
    if splits == [] then 0
    else SplitDebit(id, splits[..|splits| - 1]) + Charge(id, splits[|splits| - 1])
  }

  function Charge(id: string, s: Split): int {
    if s.userId == id then s.amount else 0
  }

  /** The payer is credited with the whole amount; every split debits its user. */
  function TransactionEffect(id: string, t: Transaction): int {
    (if t.paidById == id then t.amount else 0) - SplitDebit(id, t.splits)
  }

  function TransactionsNet(id: string, txs: seq<Transaction>): int {
    if txs == [] then 0 else TransactionsNet(id, txs[..|txs| - 1]) + TransactionEffect(id, txs[|txs| - 1])
  }

  /** The payer of a settlement is owed more, the receiver less. */
  function SettlementEffect(id: string, s: Settlement): int {
    (if s.paidById == id then s.amount else 0) - (if s.receivedById == id then s.amount else 0)
  }

  function SettlementsNet(id: string, sts: seq<Settlement>): int {
    if sts == [] then 0 else SettlementsNet(id, sts[..|sts| - 1]) + SettlementEffect(id, sts[|sts| - 1])
  }

  /** The net balance of `id` over a group's transactions and settlements. */
  function NetBalance(id: string, txs: seq<Transaction>, sts: seq<Settlement>): int {
    TransactionsNet(id, txs) + SettlementsNet(id, sts)
  }

  function Ids(users: seq<User>): (ids: seq<string>)
    ensures |ids| == |users| && forall i | 0 <= i < |users| :: ids[i] == users[i].id
  {
    seq(|users|, i requires 0 <= i < |users| => users[i].id)
  }

  predicate DistinctStrings(ids: seq<string>) {
    forall i, j | 0 <= i < j < |ids| :: ids[i] != ids[j]
  }

  /** Every payer, split user, settlement payer and receiver is one of `ids`. */
  predicate ReferencesKnown(txs: seq<Transaction>, sts: seq<Settlement>, ids: seq<string>) {
    && (forall t | t in txs :: t.paidById in ids && forall s | s in t.splits :: s.userId in ids)
    && (forall s | s in sts :: s.paidById in ids && s.receivedById in ids)
  }

  /** The caller-side invariant of a transaction: its splits add up to its amount. */
  predicate SplitsExact(txs: seq<Transaction>) {
    forall t | t in txs :: SplitTotal(t.splits) == t.amount
  }

  /** By how much the transactions' splits fall short of their amounts, in total. */
  function Imbalance(txs: seq<Transaction>): int {
    if txs == [] then 0
    else Imbalance(txs[..|txs| - 1]) + (txs[|txs| - 1].amount - SplitTotal(txs[|txs| - 1].splits))
  }

  function TotalBalance(bs: seq<UserBalance>): int {
    if bs == [] then 0 else TotalBalance(bs[..|bs| - 1]) + bs[|bs| - 1].balance
  }

  // ---------------------------------------------------------------------------
  // calculateNetBalances
  // ---------------------------------------------------------------------------

  /** One entry per user, in order, with the user's net balance. Accumulators are
      also created for ids outside `users`, but only users are reported. When every
      reference is to a (distinct) user, the balances add up to the amount by which
      the splits fall short of the transactions, hence to zero for exact splits. */
  method CalculateNetBalances(transactions: seq<Transaction>, settlements: seq<Settlement>, users: seq<User>)
    returns (r: seq<UserBalance>)
    ensures |r| == |users|
    ensures forall i | 0 <= i < |users| ::
      r[i] == UserBalance(users[i].id, users[i].username, users[i].name,
                          NetBalance(users[i].id, transactions, settlements))
    ensures DistinctStrings(Ids(users)) && ReferencesKnown(transactions, settlements, Ids(users)) ==>
      TotalBalance(r) == Imbalance(transactions)
    ensures (DistinctStrings(Ids(users)) && ReferencesKnown(transactions, settlements, Ids(users)) &&
             SplitsExact(transactions)) ==> TotalBalance(r) == 0
  {
    var balances: map<string, int> := map[];
    for i := 0 to |users|
      invariant forall k | k in balances :: balances[k] == 0
    {
      balances := balances[users[i].id := 0];
    }
    balances := ApplyTransactions(balances, transactions);
    balances := ApplySettlements(balances, settlements);

    // |raw| < 0.001 is only met by 0 cents, and toFixed(2) keeps whole cents.
    r := seq(|users|, i requires 0 <= i < |users| =>
      UserBalance(users[i].id, users[i].username, users[i].name, Get(balances, users[i].id)));

    var ids := Ids(users);
    var net := id => NetBalance(id, transactions, settlements);
    TotalBalanceIsSumOver(r, ids, net);
    if DistinctStrings(ids) && ReferencesKnown(transactions, settlements, ids) {
      Conservation(transactions, settlements, ids, net);
    }
  }

  /** `transactions.forEach(...)`: every transaction credits its payer and debits its splits. */
  method ApplyTransactions(balances: map<string, int>, transactions: seq<Transaction>)
    returns (b: map<string, int>)
    ensures forall k :: Get(b, k) == Get(balances, k) + TransactionsNet(k, transactions)
  {
    b := balances;
    for i := 0 to |transactions|
      invariant forall k :: Get(b, k) == Get(balances, k) + TransactionsNet(k, transactions[..i])
    {
      var t := transactions[i];
      b := b[t.paidById := Get(b, t.paidById) + t.amount];
      b := DebitSplits(b, t.splits);
      assert transactions[..i + 1][..i] == transactions[..i];
    }
    assert transactions[..|transactions|] == transactions;
  }

  /** `transaction.splits.forEach(...)`: every split debits its user. */
  method DebitSplits(balances: map<string, int>, splits: seq<Split>) returns (b: map<string, int>)
    ensures forall k :: Get(b, k) == Get(balances, k) - SplitDebit(k, splits)
  {
    b := balances;
    for j := 0 to |splits|
      invariant forall k :: Get(b, k) == Get(balances, k) - SplitDebit(k, splits[..j])
    {
      var s := splits[j];
      b := b[s.userId := Get(b, s.userId) - s.amount];
      assert splits[..j + 1][..j] == splits[..j];
    }
    assert splits[..|splits|] == splits;
  }

  /** `settlements.forEach(...)`: every settlement credits its payer and debits its receiver. */
  method ApplySettlements(balances: map<string, int>, settlements: seq<Settlement>)
    returns (b: map<string, int>)
    ensures forall k :: Get(b, k) == Get(balances, k) + SettlementsNet(k, settlements)
  {
    b := balances;
    for i := 0 to |settlements|
      invariant forall k :: Get(b, k) == Get(balances, k) + SettlementsNet(k, settlements[..i])
    {
      var s := settlements[i];
      b := b[s.paidById := Get(b, s.paidById) + s.amount];
      b := b[s.receivedById := Get(b, s.receivedById) - s.amount];
      assert settlements[..i + 1][..i] == settlements[..i];
    }
    assert settlements[..|settlements|] == settlements;
  }

  // ---------------------------------------------------------------------------
  // Conservation of money
  // ---------------------------------------------------------------------------

  /** The sum of `f` over a list of ids. */
  ghost function SumOver(ids: seq<string>, f: string -> int): int {
    if ids == [] then 0 else SumOver(ids[..|ids| - 1], f) + f(ids[|ids| - 1])
  }

  lemma {:induction false} SumOverAdd(ids: seq<string>, f: string -> int, g: string -> int, h: string -> int)
    requires forall x :: h(x) == f(x) + g(x)
    ensures SumOver(ids, h) == SumOver(ids, f) + SumOver(ids, g)
  {
    if ids != [] {
      SumOverAdd(ids[..|ids| - 1], f, g, h);
    }
  }

  lemma {:induction false} SumOverSub(ids: seq<string>, f: string -> int, g: string -> int, h: string -> int)
    requires forall x :: h(x) == f(x) - g(x)
    ensures SumOver(ids, h) == SumOver(ids, f) - SumOver(ids, g)
  {
    if ids != [] {
      SumOverSub(ids[..|ids| - 1], f, g, h);
    }
  }

  lemma {:induction false} SumOverZero(ids: seq<string>, f: string -> int)
    requires forall x :: f(x) == 0
    ensures SumOver(ids, f) == 0
  {
    if ids != [] {
      SumOverZero(ids[..|ids| - 1], f);
    }
  }

  /** Summing "a at p, 0 elsewhere" over distinct ids gives a if p is one of them. */
  lemma {:induction false} SumOverPoint(ids: seq<string>, p: string, a: int, f: string -> int)
    requires DistinctStrings(ids)
    requires forall x :: f(x) == (if x == p then a else 0)
    ensures SumOver(ids, f) == if p in ids then a else 0
  {
    if ids != [] {
      var init := ids[..|ids| - 1];
      assert DistinctStrings(init);
      SumOverPoint(init, p, a, f);
      assert ids == init + [ids[|ids| - 1]];
      if p == ids[|ids| - 1] {
        assert p !in init;
      }
    }
  }

  lemma {:induction false} SplitsConserve(ids: seq<string>, splits: seq<Split>, debit: string -> int)
    requires DistinctStrings(ids)
    requires forall s | s in splits :: s.userId in ids
    requires forall x :: debit(x) == SplitDebit(x, splits)
    ensures SumOver(ids, debit) == SplitTotal(splits)
  {
    if splits != [] {
      var init := splits[..|splits| - 1];
      var last := splits[|splits| - 1];
      var before := id => SplitDebit(id, init);
      var charge := id => Charge(id, last);
      assert last in splits;
      SplitsConserve(ids, init, before);
      SumOverPoint(ids, last.userId, last.amount, charge);
      SumOverAdd(ids, before, charge, debit);
    } else {
      SumOverZero(ids, debit);
    }
  }

  lemma TransactionConserves(ids: seq<string>, t: Transaction, effect: string -> int)
    requires DistinctStrings(ids)
    requires t.paidById in ids && forall s | s in t.splits :: s.userId in ids
    requires forall x :: effect(x) == TransactionEffect(x, t)
    ensures SumOver(ids, effect) == t.amount - SplitTotal(t.splits)
  {
    var credit := id => if t.paidById == id then t.amount else 0;
    var debit := id => SplitDebit(id, t.splits);
    SplitsConserve(ids, t.splits, debit);
    SumOverPoint(ids, t.paidById, t.amount, credit);
    SumOverSub(ids, credit, debit, effect);
  }

  lemma {:induction false} TransactionsConserve(ids: seq<string>, txs: seq<Transaction>, net: string -> int)
    requires DistinctStrings(ids) && ReferencesKnown(txs, [], ids)
    requires forall x :: net(x) == TransactionsNet(x, txs)
    ensures SumOver(ids, net) == Imbalance(txs)
  {
    if txs != [] {
      var init := txs[..|txs| - 1];
      var last := txs[|txs| - 1];
      var before := id => TransactionsNet(id, init);
      var effect := id => TransactionEffect(id, last);
      assert last in txs && ReferencesKnown(init, [], ids);
      TransactionsConserve(ids, init, before);
      TransactionConserves(ids, last, effect);
      SumOverAdd(ids, before, effect, net);
    } else {
      SumOverZero(ids, net);
    }
  }

  lemma {:induction false} SettlementsConserve(ids: seq<string>, sts: seq<Settlement>, net: string -> int)
    requires DistinctStrings(ids) && ReferencesKnown([], sts, ids)
    requires forall x :: net(x) == SettlementsNet(x, sts)
    ensures SumOver(ids, net) == 0
  {
    if sts != [] {
      var init := sts[..|sts| - 1];
      var s := sts[|sts| - 1];
      var before := id => SettlementsNet(id, init);
      var paid := id => if s.paidById == id then s.amount else 0;
      var received := id => if s.receivedById == id then s.amount else 0;
      var effect := id => SettlementEffect(id, s);
      assert s in sts && ReferencesKnown([], init, ids);
      SettlementsConserve(ids, init, before);
      SumOverPoint(ids, s.paidById, s.amount, paid);
      SumOverPoint(ids, s.receivedById, s.amount, received);
      SumOverSub(ids, paid, received, effect);
      SumOverAdd(ids, before, effect, net);
    } else {
      SumOverZero(ids, net);
    }
  }

  /** Money is conserved: over a distinct list of ids that covers every reference,
      the net balances add up to the transactions' split shortfall (zero when every
      transaction's splits sum to its amount). */
  lemma Conservation(txs: seq<Transaction>, sts: seq<Settlement>, ids: seq<string>, net: string -> int)
    requires DistinctStrings(ids) && ReferencesKnown(txs, sts, ids)
    requires forall x :: net(x) == NetBalance(x, txs, sts)
    ensures SumOver(ids, net) == Imbalance(txs)
    ensures SplitsExact(txs) ==> SumOver(ids, net) == 0
  {
    var fromTxs := id => TransactionsNet(id, txs);
    var fromSts := id => SettlementsNet(id, sts);
    assert ReferencesKnown(txs, [], ids) && ReferencesKnown([], sts, ids);
    TransactionsConserve(ids, txs, fromTxs);
    SettlementsConserve(ids, sts, fromSts);
    SumOverAdd(ids, fromTxs, fromSts, net);
    if SplitsExact(txs) {
      ImbalanceOfExact(txs);
    }
  }

  lemma {:induction false} ImbalanceOfExact(txs: seq<Transaction>)
    requires SplitsExact(txs)
    ensures Imbalance(txs) == 0
  {
    if txs != [] {
      assert SplitsExact(txs[..|txs| - 1]);
      ImbalanceOfExact(txs[..|txs| - 1]);
    }
  }

  lemma {:induction false} TotalBalanceIsSumOver(r: seq<UserBalance>, ids: seq<string>, f: string -> int)
    requires |r| == |ids| && forall i | 0 <= i < |r| :: r[i].balance == f(ids[i])
    ensures TotalBalance(r) == SumOver(ids, f)
  {
    if r != [] {
      TotalBalanceIsSumOver(r[..|r| - 1], ids[..|ids| - 1], f);
    }
  }

  // ---------------------------------------------------------------------------
  // Additivity of the fold
  // ---------------------------------------------------------------------------

  /** A further transaction adds `amount` to its payer and takes each split's
      amount from that split's user; the two compose when the payer has a split. */
  lemma AddTransaction(id: string, txs: seq<Transaction>, sts: seq<Settlement>, t: Transaction)
    ensures NetBalance(id, txs + [t], sts) ==
      NetBalance(id, txs, sts) + (if t.paidById == id then t.amount else 0) - SplitDebit(id, t.splits)
  {
    assert (txs + [t])[..|txs|] == txs;
  }

  /** A further settlement adds its amount to the payer and takes it from the receiver. */
  lemma AddSettlement(id: string, txs: seq<Transaction>, sts: seq<Settlement>, s: Settlement)
    ensures NetBalance(id, txs, sts + [s]) ==
      NetBalance(id, txs, sts) + (if s.paidById == id then s.amount else 0) - (if s.receivedById == id then s.amount else 0)
  {
    assert (sts + [s])[..|sts|] == sts;
  }

  /** A user whom no transaction or settlement mentions has a zero balance. */
  lemma {:induction false} UninvolvedIsZero(id: string, txs: seq<Transaction>, sts: seq<Settlement>)
    requires forall t | t in txs :: t.paidById != id && forall s | s in t.splits :: s.userId != id
    requires forall s | s in sts :: s.paidById != id && s.receivedById != id
    ensures NetBalance(id, txs, sts) == 0
  {
    if txs != [] {
      var init := txs[..|txs| - 1];
      assert forall t | t in init :: t in txs;
      UninvolvedIsZero(id, init, sts);
      SplitDebitUnmatched(id, txs[|txs| - 1].splits);
    } else if sts != [] {
      var init := sts[..|sts| - 1];
      assert forall s | s in init :: s in sts;
      UninvolvedIsZero(id, txs, init);
    }
  }

  lemma {:induction false} SplitDebitUnmatched(id: string, splits: seq<Split>)
    requires forall s | s in splits :: s.userId != id
    ensures SplitDebit(id, splits) == 0
  {
    if splits != [] {
      assert forall s | s in splits[..|splits| - 1] :: s in splits;
      SplitDebitUnmatched(id, splits[..|splits| - 1]);
    }
  }

  // ---------------------------------------------------------------------------
  // simplifyDebts: partition and sort
  // ---------------------------------------------------------------------------

  /** "fromUser should pay toUser `amount`". */
  datatype SimplifiedDebt = SimplifiedDebt(fromUserId: string, fromUsername: string, fromName: string,
                                           toUserId: string, toUsername: string, toName: string,
                                           amount: int)

  predicate DistinctIds(bs: seq<UserBalance>) {
    forall i, j | 0 <= i < j < |bs| :: bs[i].userId != bs[j].userId
  }

  /** Entries that share a user id share a balance (the case for calculateNetBalances' output). */
  predicate Consistent(bs: seq<UserBalance>) {
    forall i, j | 0 <= i < |bs| && 0 <= j < |bs| && bs[i].userId == bs[j].userId :: bs[i].balance == bs[j].balance
  }

  predicate SortedDesc(bs: seq<UserBalance>) {
    forall i, j | 0 <= i < j < |bs| :: bs[i].balance >= bs[j].balance
  }

  /** `balances.filter(b => b.balance > 0.001)`, cloned. */
  function Creditors(bs: seq<UserBalance>): (r: seq<UserBalance>)
    ensures forall x | x in r :: x in bs && x.balance > 0
    ensures forall x | x in bs && x.balance > 0 :: x in r
  {
    if bs == [] then []
    else
      var last := bs[|bs| - 1];
      assert bs == bs[..|bs| - 1] + [last];
      Creditors(bs[..|bs| - 1]) + if last.balance > 0 then [last] else []
  }

  /** The entry a debtor was cloned from. */
  function Owing(x: UserBalance): UserBalance {
    x.(balance := -x.balance)
  }

  /** `balances.filter(b => b.balance < -0.001).map(b => ({ ...b, balance: Math.abs(b.balance) }))` */
  function Debtors(bs: seq<UserBalance>): (r: seq<UserBalance>)
    ensures forall x | x in r :: x.balance > 0 && Owing(x) in bs
    ensures forall x | x in bs && x.balance < 0 :: Owing(x) in r
  {
    if bs == [] then []
    else
      var last := bs[|bs| - 1];
      assert bs == bs[..|bs| - 1] + [last];
      assert Owing(Owing(last)) == last;
      Debtors(bs[..|bs| - 1]) + if last.balance < 0 then [Owing(last)] else []
  }

  lemma AppendDistinct(r: seq<UserBalance>, y: UserBalance)
    requires DistinctIds(r) && forall x | x in r :: x.userId != y.userId
    ensures DistinctIds(r + [y])
  {
    forall i, j | 0 <= i < j < |r + [y]| ensures (r + [y])[i].userId != (r + [y])[j].userId {
      if j == |r| {
        assert r[i] in r;
      }
    }
  }

  /** In a list with distinct ids, no earlier entry shares the last one's id. */
  lemma LastIdFresh(bs: seq<UserBalance>)
    requires DistinctIds(bs) && bs != []
    ensures DistinctIds(bs[..|bs| - 1])
    ensures forall x | x in bs[..|bs| - 1] :: x.userId != bs[|bs| - 1].userId
  {
    forall x | x in bs[..|bs| - 1] ensures x.userId != bs[|bs| - 1].userId {
      var i :| 0 <= i < |bs| - 1 && bs[..|bs| - 1][i] == x;
      assert bs[i] == x;
    }
  }

  lemma {:induction false} CreditorsDistinct(bs: seq<UserBalance>)
    requires DistinctIds(bs)
    ensures DistinctIds(Creditors(bs))
  {
    if bs != [] {
      var init, last := bs[..|bs| - 1], bs[|bs| - 1];
      LastIdFresh(bs);
      CreditorsDistinct(init);
      if last.balance > 0 {
        assert Creditors(bs) == Creditors(init) + [last];
        AppendDistinct(Creditors(init), last);
      } else {
        assert Creditors(bs) == Creditors(init);
      }
    }
  }

  lemma {:induction false} DebtorsDistinct(bs: seq<UserBalance>)
    requires DistinctIds(bs)
    ensures DistinctIds(Debtors(bs))
  {
    if bs != [] {
      var init, last := bs[..|bs| - 1], bs[|bs| - 1];
      LastIdFresh(bs);
      DebtorsDistinct(init);
      if last.balance < 0 {
        var r := Debtors(init);
        assert Debtors(bs) == r + [Owing(last)];
        forall x | x in r ensures x.userId != Owing(last).userId {
          assert Owing(x) in init;
        }
        AppendDistinct(r, Owing(last));
      } else {
        assert Debtors(bs) == Debtors(init);
      }
    }
  }

  /** The creditors keep the input order and every copy of a positive entry: they are a
      subsequence of `bs` holding each positive entry as often as `bs` does. */
  lemma CreditorsFilter(bs: seq<UserBalance>)
    ensures Subsequence(Creditors(bs), bs)
    ensures forall x :: multiset(Creditors(bs))[x] == if x.balance > 0 then multiset(bs)[x] else 0
  {
    CreditorsOrder(bs);
    forall x {
      CreditorsCount(bs, x);
    }
  }

  lemma {:induction false} CreditorsOrder(bs: seq<UserBalance>)
    ensures Subsequence(Creditors(bs), bs)
  {
    if bs != [] {
      var init, last := bs[..|bs| - 1], bs[|bs| - 1];
      CreditorsOrder(init);
      assert bs == init + [last];
      if last.balance > 0 {
        assert Creditors(bs) == Creditors(init) + [last];
        SubsequenceAppend(Creditors(init), init, last);
      } else {
        assert Creditors(bs) == Creditors(init);
        SubsequenceOfLonger(Creditors(init), init, last);
      }
    }
  }

  lemma {:induction false} CreditorsCount(bs: seq<UserBalance>, x: UserBalance)
    ensures multiset(Creditors(bs))[x] == if x.balance > 0 then multiset(bs)[x] else 0
  {
    if bs != [] {
      var init, last := bs[..|bs| - 1], bs[|bs| - 1];
      CreditorsCount(init, x);
      assert bs == init + [last];
      assert multiset(bs) == multiset(init) + multiset{last};
      if last.balance > 0 {
        assert Creditors(bs) == Creditors(init) + [last];
        assert multiset(Creditors(bs)) == multiset(Creditors(init)) + multiset{last};
      } else {
        assert Creditors(bs) == Creditors(init);
      }
    }
  }

  /** Every entry with its balance negated. */
  function Negated(bs: seq<UserBalance>): (r: seq<UserBalance>)
    ensures |r| == |bs| && forall i | 0 <= i < |bs| :: r[i] == Owing(bs[i])
  {
    if bs == [] then [] else Negated(bs[..|bs| - 1]) + [Owing(bs[|bs| - 1])]
  }

  /** Filtering the owing entries and then negating them is negating every entry and then
      filtering the positive ones. */
  lemma {:induction false} DebtorsAreNegatedCreditors(bs: seq<UserBalance>)
    ensures Debtors(bs) == Creditors(Negated(bs))
  {
    if bs != [] {
      var init, last := bs[..|bs| - 1], bs[|bs| - 1];
      DebtorsAreNegatedCreditors(init);
      assert Negated(bs)[..|bs| - 1] == Negated(init);
      assert Negated(bs)[|bs| - 1] == Owing(last);
    }
  }

  /** The debtors keep the input order and every copy of an owing entry: they are a
      subsequence of the negated entries holding each one that is now positive as often
      as the input holds its original. */
  lemma DebtorsFilter(bs: seq<UserBalance>)
    ensures Subsequence(Debtors(bs), Negated(bs))
    ensures forall x :: multiset(Debtors(bs))[x] == if x.balance > 0 then multiset(Negated(bs))[x] else 0
  {
    DebtorsAreNegatedCreditors(bs);
    CreditorsFilter(Negated(bs));
  }

  /** Places `x` before the first entry whose balance it is not below (keeps ties in input order). */
  function Insert(x: UserBalance, r: seq<UserBalance>): (q: seq<UserBalance>)
    ensures |q| == |r| + 1
    ensures multiset(q) == multiset(r) + multiset{x}
  {
    if r == [] || x.balance >= r[0].balance then [x] + r
    else
      assert r == [r[0]] + r[1..];
      [r[0]] + Insert(x, r[1..])
  }

  lemma InsertMembers(x: UserBalance, r: seq<UserBalance>)
    ensures forall y :: y in Insert(x, r) <==> y == x || y in r
  {
    assert forall y :: y in Insert(x, r) <==> y in multiset(Insert(x, r));
  }

  lemma {:induction false} InsertSorted(x: UserBalance, r: seq<UserBalance>)
    requires SortedDesc(r)
    ensures SortedDesc(Insert(x, r))
  {
    if r != [] && x.balance < r[0].balance {
      var rest := Insert(x, r[1..]);
      InsertSorted(x, r[1..]);
      InsertMembers(x, r[1..]);
      var q := [r[0]] + rest;
      assert Insert(x, r) == q;
      forall i, j | 0 <= i < j < |q| ensures q[i].balance >= q[j].balance {
        var y := rest[j - 1];
        assert q[j] == y && y in rest;
        if i > 0 {
          assert q[i] == rest[i - 1];
        } else if y != x {
          var m :| 0 <= m < |r[1..]| && r[1..][m] == y;
          assert r[m + 1] == y;
        }
      }
    }
  }

  /** `.sort((a, b) => b.balance - a.balance)`: a stable sort, largest balance first. */
  function SortDesc(s: seq<UserBalance>): (r: seq<UserBalance>)
    ensures |r| == |s|
    ensures multiset(r) == multiset(s)
    ensures SortedDesc(r)
  {
    if s == [] then [] else
      assert s == [s[0]] + s[1..];
      InsertSorted(s[0], SortDesc(s[1..]));
      Insert(s[0], SortDesc(s[1..]))
  }

  /** The entries of `s` whose balance is `v`, in order. */
  function WithBalance(s: seq<UserBalance>, v: int): seq<UserBalance> {
    if s == [] then []
    else if s[0].balance == v then [s[0]] + WithBalance(s[1..], v)
    else WithBalance(s[1..], v)
  }

  lemma ConsWithBalance(y: UserBalance, t: seq<UserBalance>, v: int)
    ensures WithBalance([y] + t, v) == if y.balance == v then [y] + WithBalance(t, v) else WithBalance(t, v)
  {
    assert ([y] + t)[0] == y && ([y] + t)[1..] == t;
  }

  /** `x` lands ahead of every entry with its own balance. */
  lemma {:induction false} InsertStable(x: UserBalance, r: seq<UserBalance>, v: int)
    ensures WithBalance(Insert(x, r), v) == if x.balance == v then [x] + WithBalance(r, v) else WithBalance(r, v)
  {
    if r == [] || x.balance >= r[0].balance {
      ConsWithBalance(x, r, v);
    } else {
      var rest := Insert(x, r[1..]);
      InsertStable(x, r[1..], v);
      ConsWithBalance(r[0], rest, v);
    }
  }

  /** The sort is stable: entries with equal balances keep their input order. Together
      with `SortDesc`'s contract this fixes the sorted list completely. */
  lemma {:induction false} SortDescStable(s: seq<UserBalance>)
    ensures forall v :: WithBalance(SortDesc(s), v) == WithBalance(s, v)
  {
    if s != [] {
      SortDescStable(s[1..]);
      forall v ensures WithBalance(SortDesc(s), v) == WithBalance(s, v) {
        InsertStable(s[0], SortDesc(s[1..]), v);
      }
    }
  }

  lemma SortMembers(s: seq<UserBalance>)
    ensures forall y :: y in SortDesc(s) <==> y in s
  {
    assert forall y :: y in SortDesc(s) <==> y in multiset(SortDesc(s));
    assert forall y :: y in s <==> y in multiset(s);
  }

  lemma {:induction false} InsertKeepsDistinct(x: UserBalance, r: seq<UserBalance>)
    requires DistinctIds(r) && forall y | y in r :: y.userId != x.userId
    ensures DistinctIds(Insert(x, r))
  {
    if r != [] && x.balance < r[0].balance {
      assert forall y | y in r[1..] :: y in r;
      InsertKeepsDistinct(x, r[1..]);
      InsertMembers(x, r[1..]);
      assert forall j | 1 <= j < |r| :: r[0].userId != r[j].userId;
      assert forall y | y in r[1..] :: r[0].userId != y.userId;
    }
  }

  lemma {:induction false} SortKeepsDistinct(s: seq<UserBalance>)
    requires DistinctIds(s)
    ensures DistinctIds(SortDesc(s))
  {
    if s != [] {
      assert forall j | 1 <= j < |s| :: s[0].userId != s[j].userId;
      assert forall y | y in s[1..] :: s[0].userId != y.userId;
      SortKeepsDistinct(s[1..]);
      SortMembers(s[1..]);
      InsertKeepsDistinct(s[0], SortDesc(s[1..]));
    }
  }

  lemma {:induction false} TotalAppend(a: seq<UserBalance>, b: seq<UserBalance>)
    ensures TotalBalance(a + b) == TotalBalance(a) + TotalBalance(b)
  {
    if b != [] {
      TotalAppend(a, b[..|b| - 1]);
      assert (a + b)[..|a + b| - 1] == a + b[..|b| - 1];
    } else {
      assert a + b == a;
    }
  }

  lemma TotalCons(x: UserBalance, t: seq<UserBalance>)
    ensures TotalBalance([x] + t) == x.balance + TotalBalance(t)
  {
    TotalAppend([x], t);
  }

  lemma {:induction false} InsertKeepsTotal(x: UserBalance, r: seq<UserBalance>)
    ensures TotalBalance(Insert(x, r)) == x.balance + TotalBalance(r)
  {
    if r == [] || x.balance >= r[0].balance {
      TotalCons(x, r);
    } else {
      InsertKeepsTotal(x, r[1..]);
      TotalCons(r[0], Insert(x, r[1..]));
      TotalCons(r[0], r[1..]);
      assert r == [r[0]] + r[1..];
    }
  }

  lemma {:induction false} SortKeepsTotal(s: seq<UserBalance>)
    ensures TotalBalance(SortDesc(s)) == TotalBalance(s)
  {
    if s != [] {
      SortKeepsTotal(s[1..]);
      InsertKeepsTotal(s[0], SortDesc(s[1..]));
      TotalCons(s[0], s[1..]);
      assert s == [s[0]] + s[1..];
    }
  }

  /** Credit minus debt is the total balance. */
  lemma {:induction false} PartitionTotal(bs: seq<UserBalance>)
    ensures TotalBalance(bs) == TotalBalance(Creditors(bs)) - TotalBalance(Debtors(bs))
  {
    if bs != [] {
      var init := bs[..|bs| - 1];
      var last := bs[|bs| - 1];
      PartitionTotal(init);
      if last.balance > 0 {
        assert Creditors(bs) == Creditors(init) + [last] && Debtors(bs) == Debtors(init);
        TotalAppend(Creditors(init), [last]);
      } else if last.balance < 0 {
        assert Creditors(bs) == Creditors(init) && Debtors(bs) == Debtors(init) + [Owing(last)];
        TotalAppend(Debtors(init), [Owing(last)]);
      } else {
        assert Creditors(bs) == Creditors(init) && Debtors(bs) == Debtors(init);
      }
    }
  }

  lemma {:induction false} TotalUpdate(s: seq<UserBalance>, i: nat, v: UserBalance)
    requires i < |s|
    ensures TotalBalance(s[i := v]) == TotalBalance(s) - s[i].balance + v.balance
  {
    if i < |s| - 1 {
      TotalUpdate(s[..|s| - 1], i, v);
      assert s[i := v][..|s| - 1] == s[..|s| - 1][i := v];
    } else {
      assert s[i := v][..|s| - 1] == s[..|s| - 1];
    }
  }

  lemma {:induction false} ZeroEntriesZeroTotal(s: seq<UserBalance>)
    requires forall i | 0 <= i < |s| :: s[i].balance == 0
    ensures TotalBalance(s) == 0
  {
    if s != [] {
      ZeroEntriesZeroTotal(s[..|s| - 1]);
    }
  }

  lemma {:induction false} ZeroTotalZeroEntries(s: seq<UserBalance>)
    requires forall i | 0 <= i < |s| :: s[i].balance >= 0
    requires TotalBalance(s) == 0
    ensures forall i | 0 <= i < |s| :: s[i].balance == 0
  {
    if s != [] {
      NonNegTotal(s[..|s| - 1]);
      ZeroTotalZeroEntries(s[..|s| - 1]);
    }
  }

  lemma {:induction false} NonNegTotal(s: seq<UserBalance>)
    requires forall i | 0 <= i < |s| :: s[i].balance >= 0
    ensures TotalBalance(s) >= 0
  {
    if s != [] {
      NonNegTotal(s[..|s| - 1]);
    }
  }

  // ---------------------------------------------------------------------------
  // simplifyDebts: the matching loop
  // ---------------------------------------------------------------------------

  /** What the debts pay to `id`. */
  function Inflow(ds: seq<SimplifiedDebt>, id: string): int {
    if ds == [] then 0
    else Inflow(ds[..|ds| - 1], id) + (if ds[|ds| - 1].toUserId == id then ds[|ds| - 1].amount else 0)
  }

  /** What the debts make `id` pay. */
  function Outflow(ds: seq<SimplifiedDebt>, id: string): int {
    if ds == [] then 0
    else Outflow(ds[..|ds| - 1], id) + (if ds[|ds| - 1].fromUserId == id then ds[|ds| - 1].amount else 0)
  }

  /** The balance of `b` once every debt has been recorded as a settlement. */
  function AfterSettling(b: UserBalance, ds: seq<SimplifiedDebt>): int {
    b.balance + Outflow(ds, b.userId) - Inflow(ds, b.userId)
  }

  /** Settling moves a balance towards zero and never past it. */
  predicate NoOvershoot(b: UserBalance, ds: seq<SimplifiedDebt>) {
    var after := AfterSettling(b, ds);
    (b.balance >= 0 ==> 0 <= after <= b.balance) && (b.balance <= 0 ==> b.balance <= after <= 0)
  }

  /** The debt's payer is an entry that owes money and its payee one that is owed. */
  ghost predicate DebtorToCreditor(d: SimplifiedDebt, bs: seq<UserBalance>) {
    && (exists b | b in bs :: b.balance < 0 && b.userId == d.fromUserId && b.username == d.fromUsername && b.name == d.fromName)
    && (exists c | c in bs :: c.balance > 0 && c.userId == d.toUserId && c.username == d.toUsername && c.name == d.toName)
  }

  lemma {:induction false} InflowNone(ds: seq<SimplifiedDebt>, id: string)
    requires forall k | 0 <= k < |ds| :: ds[k].toUserId != id
    ensures Inflow(ds, id) == 0
  {
    if ds != [] {
      InflowNone(ds[..|ds| - 1], id);
    }
  }

  lemma {:induction false} OutflowNone(ds: seq<SimplifiedDebt>, id: string)
    requires forall k | 0 <= k < |ds| :: ds[k].fromUserId != id
    ensures Outflow(ds, id) == 0
  {
    if ds != [] {
      OutflowNone(ds[..|ds| - 1], id);
    }
  }

  lemma DifferentBalancesDifferentIds(bs: seq<UserBalance>, x: UserBalance, y: UserBalance)
    requires DistinctIds(bs) && x in bs && y in bs && x.balance != y.balance
    ensures x.userId != y.userId
  {
    var i :| 0 <= i < |bs| && bs[i] == x;
    var j :| 0 <= j < |bs| && bs[j] == y;
    assert i != j;
    if i < j {
      assert bs[i].userId != bs[j].userId;
    } else {
      assert bs[j].userId != bs[i].userId;
    }
  }

  /** The working lists of the matching loop, as `simplifyDebts` builds them. */
  ghost predicate WorkingLists(balances: seq<UserBalance>, cs: seq<UserBalance>, ds: seq<UserBalance>) {
    && (forall x | x in cs :: x in Creditors(balances))
    && (forall x | x in ds :: x in Debtors(balances))
    && (forall x | x in Creditors(balances) :: x in cs)
    && (forall x | x in Debtors(balances) :: x in ds)
    && |cs| == |Creditors(balances)| && |ds| == |Debtors(balances)|
    && TotalBalance(cs) == TotalBalance(Creditors(balances))
    && TotalBalance(ds) == TotalBalance(Debtors(balances))
    && (forall i | 0 <= i < |cs| :: cs[i].balance > 0)
    && (forall j | 0 <= j < |ds| :: ds[j].balance > 0)
    && (DistinctIds(balances) ==> DistinctIds(cs) && DistinctIds(ds))
  }

  /** What sorting keeps of a list. */
  lemma SortKeeps(s: seq<UserBalance>)
    ensures forall x | x in SortDesc(s) :: x in s
    ensures forall x | x in s :: x in SortDesc(s)
    ensures TotalBalance(SortDesc(s)) == TotalBalance(s)
    ensures (forall x | x in s :: x.balance > 0) ==> forall i | 0 <= i < |SortDesc(s)| :: SortDesc(s)[i].balance > 0
    ensures DistinctIds(s) ==> DistinctIds(SortDesc(s))
  {
    var r := SortDesc(s);
    SortMembers(s);
    SortKeepsTotal(s);
    if DistinctIds(s) {
      SortKeepsDistinct(s);
    }
    if forall x | x in s :: x.balance > 0 {
      forall i | 0 <= i < |r| ensures r[i].balance > 0 {
        assert r[i] in r;
      }
    }
  }

  lemma WorkingListsOfSort(balances: seq<UserBalance>, cs: seq<UserBalance>, ds: seq<UserBalance>)
    requires cs == SortDesc(Creditors(balances)) && ds == SortDesc(Debtors(balances))
    ensures WorkingLists(balances, cs, ds)
  {
    SortKeeps(Creditors(balances));
    SortKeeps(Debtors(balances));
    if DistinctIds(balances) {
      CreditorsDistinct(balances);
      DebtorsDistinct(balances);
    }
  }

  /** The remaining balances keep the identity of the working entries and stay between 0 and the start. */
  ghost predicate Remaining(orig: seq<UserBalance>, now: seq<UserBalance>) {
    |now| == |orig| &&
    forall i | 0 <= i < |orig| :: now[i] == orig[i].(balance := now[i].balance) && 0 <= now[i].balance <= orig[i].balance
  }

  /** The debt a debtor entry owes a creditor entry. */
  function DebtOf(debtor: UserBalance, creditor: UserBalance, amount: int): SimplifiedDebt {
    SimplifiedDebt(debtor.userId, debtor.username, debtor.name, creditor.userId, creditor.username, creditor.name, amount)
  }

  /** Debt k is a positive amount from working debtor fromIx[k] to working creditor toIx[k]. */
  ghost predicate Drawn(cs: seq<UserBalance>, ds: seq<UserBalance>, out: seq<SimplifiedDebt>,
                        toIx: seq<nat>, fromIx: seq<nat>) {
    |toIx| == |out| && |fromIx| == |out| &&
    forall k | 0 <= k < |out| ::
      toIx[k] < |cs| && fromIx[k] < |ds| && out[k].amount > 0 && out[k] == DebtOf(ds[fromIx[k]], cs[toIx[k]], out[k].amount)
  }

  /** Every working creditor has received what it has been paid down by. */
  ghost predicate Received(cs: seq<UserBalance>, now: seq<UserBalance>, out: seq<SimplifiedDebt>) {
    |now| == |cs| &&
    forall i | 0 <= i < |cs| :: Inflow(out, cs[i].userId) == cs[i].balance - now[i].balance
  }

  /** Every working debtor has paid what it has been paid down by. */
  ghost predicate Paid(ds: seq<UserBalance>, now: seq<UserBalance>, out: seq<SimplifiedDebt>) {
    |now| == |ds| &&
    forall j | 0 <= j < |ds| :: Outflow(out, ds[j].userId) == ds[j].balance - now[j].balance
  }

  /** One emitted debt keeps the per-user books of the loop. */
  lemma MatchStep(cs: seq<UserBalance>, ds: seq<UserBalance>,
                  creditors: seq<UserBalance>, debtors: seq<UserBalance>, out: seq<SimplifiedDebt>,
                  ci: nat, di: nat, amount: int, debt: SimplifiedDebt, distinct: bool)
    requires Remaining(cs, creditors) && Remaining(ds, debtors)
    requires ci < |cs| && di < |ds|
    requires debt == DebtOf(debtors[di], creditors[ci], amount)
    requires distinct ==> DistinctIds(cs) && DistinctIds(ds)
    requires distinct ==> Received(cs, creditors, out) && Paid(ds, debtors, out)
    ensures debt == DebtOf(ds[di], cs[ci], amount)
    ensures distinct ==>
      Received(cs, creditors[ci := creditors[ci].(balance := creditors[ci].balance - amount)], out + [debt])
    ensures distinct ==>
      Paid(ds, debtors[di := debtors[di].(balance := debtors[di].balance - amount)], out + [debt])
  {
    assert (out + [debt])[..|out|] == out;
    if distinct {
      var c' := creditors[ci := creditors[ci].(balance := creditors[ci].balance - amount)];
      forall i | 0 <= i < |cs|
        ensures Inflow(out + [debt], cs[i].userId) == cs[i].balance - c'[i].balance
      {
        if i < ci {
          assert cs[i].userId != cs[ci].userId;
        } else if ci < i {
          assert cs[ci].userId != cs[i].userId;
        }
      }
      var d' := debtors[di := debtors[di].(balance := debtors[di].balance - amount)];
      forall j | 0 <= j < |ds|
        ensures Outflow(out + [debt], ds[j].userId) == ds[j].balance - d'[j].balance
      {
        if j < di {
          assert ds[j].userId != ds[di].userId;
        } else if di < j {
          assert ds[di].userId != ds[j].userId;
        }
      }
    }
  }

  /** What the loop leaves behind: where every debt comes from, the count bound, no self-debts. */
  lemma MatchShape(balances: seq<UserBalance>, cs: seq<UserBalance>, ds: seq<UserBalance>,
                   out: seq<SimplifiedDebt>, toIx: seq<nat>, fromIx: seq<nat>)
    requires WorkingLists(balances, cs, ds) && Drawn(cs, ds, out, toIx, fromIx)
    requires out == [] || |out| < |cs| + |ds|
    requires cs == [] || ds == [] ==> out == []
    ensures forall k | 0 <= k < |out| :: out[k].amount > 0 && DebtorToCreditor(out[k], balances)
    ensures out == [] || |out| < |Creditors(balances)| + |Debtors(balances)|
    ensures Creditors(balances) == [] || Debtors(balances) == [] ==> out == []
    ensures Consistent(balances) ==> forall k | 0 <= k < |out| :: out[k].fromUserId != out[k].toUserId
  {
    forall k | 0 <= k < |out|
      ensures DebtorToCreditor(out[k], balances)
      ensures Consistent(balances) ==> out[k].fromUserId != out[k].toUserId
    {
      var c := cs[toIx[k]];
      var b := Owing(ds[fromIx[k]]);
      assert c in cs && ds[fromIx[k]] in ds;
      assert c in balances && b in balances;
      if Consistent(balances) {
        var i :| 0 <= i < |balances| && balances[i] == b;
        var j :| 0 <= j < |balances| && balances[j] == c;
        assert balances[i].balance != balances[j].balance;
      }
    }
  }

  /** Once one side is exhausted, zero-sum input leaves nothing on either side. */
  lemma ExhaustedSettlesAll(balances: seq<UserBalance>, cs: seq<UserBalance>, ds: seq<UserBalance>,
                            creditors: seq<UserBalance>, debtors: seq<UserBalance>)
    requires TotalBalance(balances) == 0
    requires TotalBalance(cs) == TotalBalance(Creditors(balances))
    requires TotalBalance(ds) == TotalBalance(Debtors(balances))
    requires Remaining(cs, creditors) && Remaining(ds, debtors)
    requires (forall i | 0 <= i < |creditors| :: creditors[i].balance == 0) ||
             (forall j | 0 <= j < |debtors| :: debtors[j].balance == 0)
    requires TotalBalance(cs) - TotalBalance(creditors) == TotalBalance(ds) - TotalBalance(debtors)
    ensures forall i | 0 <= i < |creditors| :: creditors[i].balance == 0
    ensures forall j | 0 <= j < |debtors| :: debtors[j].balance == 0
  {
    PartitionTotal(balances);
    assert TotalBalance(cs) == TotalBalance(ds);
    if forall i | 0 <= i < |creditors| :: creditors[i].balance == 0 {
      ZeroEntriesZeroTotal(creditors);
      assert TotalBalance(debtors) == 0;
      assert forall j | 0 <= j < |debtors| :: debtors[j].balance >= 0;
      ZeroTotalZeroEntries(debtors);
    } else {
      ZeroEntriesZeroTotal(debtors);
      assert TotalBalance(creditors) == 0;
      assert forall i | 0 <= i < |creditors| :: creditors[i].balance >= 0;
      ZeroTotalZeroEntries(creditors);
    }
  }

  /** With distinct ids, one entry is settled towards zero and no further, and exactly to
      zero when nothing remains on either side. */
  lemma EntrySettled(balances: seq<UserBalance>, cs: seq<UserBalance>, ds: seq<UserBalance>,
                     creditors: seq<UserBalance>, debtors: seq<UserBalance>, out: seq<SimplifiedDebt>,
                     toIx: seq<nat>, fromIx: seq<nat>, b: UserBalance)
    requires DistinctIds(balances) && b in balances
    requires WorkingLists(balances, cs, ds) && Drawn(cs, ds, out, toIx, fromIx)
    requires Remaining(cs, creditors) && Remaining(ds, debtors)
    requires Received(cs, creditors, out) && Paid(ds, debtors, out)
    ensures NoOvershoot(b, out)
    ensures ((forall i | 0 <= i < |creditors| :: creditors[i].balance == 0) &&
             (forall j | 0 <= j < |debtors| :: debtors[j].balance == 0)) ==> AfterSettling(b, out) == 0
  {
    if b.balance >= 0 {
      forall k | 0 <= k < |out| ensures out[k].fromUserId != b.userId {
        var w := Owing(ds[fromIx[k]]);
        assert ds[fromIx[k]] in ds;
        DifferentBalancesDifferentIds(balances, w, b);
      }
      OutflowNone(out, b.userId);
    }
    if b.balance <= 0 {
      forall k | 0 <= k < |out| ensures out[k].toUserId != b.userId {
        var w := cs[toIx[k]];
        assert w in cs;
        DifferentBalancesDifferentIds(balances, w, b);
      }
      InflowNone(out, b.userId);
    }
    if b.balance > 0 {
      assert b in Creditors(balances);
      var p :| 0 <= p < |cs| && cs[p] == b;
    } else if b.balance < 0 {
      assert Owing(b) in Debtors(balances);
      var p :| 0 <= p < |ds| && ds[p] == Owing(b);
    }
  }

  /** Greedy largest-first matching of debtors against creditors. Every debt is
      positive and runs from an entry that owes to one that is owed (so never to
      oneself when ids determine balances); there are fewer debts than creditors
      plus debtors. With distinct ids no balance is overpaid, and when the balances
      add up to zero the debts cancel every one of them exactly. */
  method SimplifyDebts(balances: seq<UserBalance>) returns (simplified: seq<SimplifiedDebt>)
    ensures forall k | 0 <= k < |simplified| :: simplified[k].amount > 0
    ensures forall k | 0 <= k < |simplified| :: DebtorToCreditor(simplified[k], balances)
    ensures Consistent(balances) ==>
      forall k | 0 <= k < |simplified| :: simplified[k].fromUserId != simplified[k].toUserId
    ensures simplified == [] || |simplified| < |Creditors(balances)| + |Debtors(balances)|
    ensures Creditors(balances) == [] || Debtors(balances) == [] ==> simplified == []
    ensures DistinctIds(balances) ==> forall i | 0 <= i < |balances| :: NoOvershoot(balances[i], simplified)
    ensures DistinctIds(balances) && TotalBalance(balances) == 0 ==>
      forall i | 0 <= i < |balances| :: AfterSettling(balances[i], simplified) == 0
  {
    var creditors, debtors := WorkingCopies(balances);
    ghost var cs, ds := creditors[..], debtors[..];
    ghost var toIx: seq<nat>, fromIx: seq<nat>;
    var creditorIndex, debtorIndex;
    simplified, toIx, fromIx, creditorIndex, debtorIndex := Settle(creditors, debtors, DistinctIds(balances));
    Settled(balances, cs, ds, creditors[..], debtors[..], simplified, toIx, fromIx, creditorIndex, debtorIndex);
  }

  /** The creditors and the debtors (owed amounts made positive), each cloned into a fresh
      array sorted largest first. */
  method WorkingCopies(balances: seq<UserBalance>) returns (creditors: array<UserBalance>, debtors: array<UserBalance>)
    ensures fresh(creditors) && fresh(debtors) && creditors != debtors
    ensures creditors[..] == SortDesc(Creditors(balances)) && debtors[..] == SortDesc(Debtors(balances))
    ensures forall i | 0 <= i < creditors.Length :: creditors[i].balance >= 0
    ensures forall j | 0 <= j < debtors.Length :: debtors[j].balance >= 0
    ensures DistinctIds(balances) ==> DistinctIds(creditors[..]) && DistinctIds(debtors[..])
  {
    var cs := SortDesc(Creditors(balances));
    var ds := SortDesc(Debtors(balances));
    WorkingListsOfSort(balances, cs, ds);
    creditors := Clone(cs);
    debtors := Clone(ds);
  }

  /** A fresh array holding the given entries (`{ ...b }` for each). */
  method Clone(s: seq<UserBalance>) returns (a: array<UserBalance>)
    ensures fresh(a) && a[..] == s
  {
    a := new UserBalance[|s|](i requires 0 <= i < |s| => s[i]);
    assert a[..] == s;
  }

  /** What the finished loop over the sorted working lists means. */
  lemma Settled(balances: seq<UserBalance>, cs: seq<UserBalance>, ds: seq<UserBalance>,
                c: seq<UserBalance>, d: seq<UserBalance>,
                out: seq<SimplifiedDebt>, toIx: seq<nat>, fromIx: seq<nat>, ci: nat, di: nat)
    requires cs == SortDesc(Creditors(balances)) && ds == SortDesc(Debtors(balances))
    requires Progress(cs, ds, c, d, out, toIx, fromIx, ci, di, DistinctIds(balances))
    requires ci == |c| || di == |d|
    ensures forall k | 0 <= k < |out| :: out[k].amount > 0
    ensures forall k | 0 <= k < |out| :: DebtorToCreditor(out[k], balances)
    ensures Consistent(balances) ==> forall k | 0 <= k < |out| :: out[k].fromUserId != out[k].toUserId
    ensures out == [] || |out| < |Creditors(balances)| + |Debtors(balances)|
    ensures Creditors(balances) == [] || Debtors(balances) == [] ==> out == []
    ensures DistinctIds(balances) ==> forall i | 0 <= i < |balances| :: NoOvershoot(balances[i], out)
    ensures DistinctIds(balances) && TotalBalance(balances) == 0 ==>
      forall i | 0 <= i < |balances| :: AfterSettling(balances[i], out) == 0
  {
    WorkingListsOfSort(balances, cs, ds);
    SettledShape(balances, cs, ds, c, d, out, toIx, fromIx, ci, di);
    SettledBalances(balances, cs, ds, c, d, out, toIx, fromIx, ci, di);
  }

  /** What the finished loop means for the debts themselves. */
  lemma SettledShape(balances: seq<UserBalance>, cs: seq<UserBalance>, ds: seq<UserBalance>,
                     c: seq<UserBalance>, d: seq<UserBalance>,
                     out: seq<SimplifiedDebt>, toIx: seq<nat>, fromIx: seq<nat>, ci: nat, di: nat)
    requires WorkingLists(balances, cs, ds)
    requires Progress(cs, ds, c, d, out, toIx, fromIx, ci, di, DistinctIds(balances))
    requires ci == |c| || di == |d|
    ensures forall k | 0 <= k < |out| :: out[k].amount > 0 && DebtorToCreditor(out[k], balances)
    ensures Consistent(balances) ==> forall k | 0 <= k < |out| :: out[k].fromUserId != out[k].toUserId
    ensures out == [] || |out| < |Creditors(balances)| + |Debtors(balances)|
    ensures Creditors(balances) == [] || Debtors(balances) == [] ==> out == []
  {
    ProgressAtExit(cs, ds, c, d, out, toIx, fromIx, ci, di, DistinctIds(balances));
    MatchShape(balances, cs, ds, out, toIx, fromIx);
  }

  /** What the finished loop means for each member's balance. */
  lemma SettledBalances(balances: seq<UserBalance>, cs: seq<UserBalance>, ds: seq<UserBalance>,
                     c: seq<UserBalance>, d: seq<UserBalance>,
                        out: seq<SimplifiedDebt>, toIx: seq<nat>, fromIx: seq<nat>, ci: nat, di: nat)
    requires WorkingLists(balances, cs, ds)
    requires Progress(cs, ds, c, d, out, toIx, fromIx, ci, di, DistinctIds(balances))
    requires ci == |c| || di == |d|
    ensures DistinctIds(balances) ==> forall i | 0 <= i < |balances| :: NoOvershoot(balances[i], out)
    ensures DistinctIds(balances) && TotalBalance(balances) == 0 ==>
      forall i | 0 <= i < |balances| :: AfterSettling(balances[i], out) == 0
  {
    if DistinctIds(balances) {
      ProgressAtExit(cs, ds, c, d, out, toIx, fromIx, ci, di, true);
      if TotalBalance(balances) == 0 {
        ExhaustedSettlesAll(balances, cs, ds, c, d);
      }
      forall i | 0 <= i < |balances|
        ensures NoOvershoot(balances[i], out)
        ensures TotalBalance(balances) == 0 ==> AfterSettling(balances[i], out) == 0
      {
        EntrySettled(balances, cs, ds, c, d, out, toIx, fromIx, balances[i]);
      }
    }
  }

  /** The state of the two-cursor loop: c and d are the remaining balances of the
      working creditors cs and debtors ds, ci and di the cursors, out the debts so far. */
  ghost predicate Progress(cs: seq<UserBalance>, ds: seq<UserBalance>, c: seq<UserBalance>, d: seq<UserBalance>,
                           out: seq<SimplifiedDebt>, toIx: seq<nat>, fromIx: seq<nat>,
                           ci: nat, di: nat, distinct: bool) {
    && ci <= |cs| && di <= |ds|
    && Remaining(cs, c) && Remaining(ds, d)
    && (forall i | 0 <= i < ci :: c[i].balance == 0)
    && (forall j | 0 <= j < di :: d[j].balance == 0)
    && TotalBalance(cs) - TotalBalance(c) == TotalBalance(ds) - TotalBalance(d)
    && Drawn(cs, ds, out, toIx, fromIx)
    && |out| <= ci + di
    && (ci == |cs| && di == |ds| ==> out == [] || |out| < ci + di)
    && (cs == [] || ds == [] ==> out == [])
    && (distinct ==> Received(cs, c, out) && Paid(ds, d, out))
  }

  lemma ProgressStart(cs: seq<UserBalance>, ds: seq<UserBalance>, distinct: bool)
    requires forall i | 0 <= i < |cs| :: cs[i].balance >= 0
    requires forall j | 0 <= j < |ds| :: ds[j].balance >= 0
    ensures Progress(cs, ds, cs, ds, [], [], [], 0, 0, distinct)
  {
    assert Received(cs, cs, []) && Paid(ds, ds, []);
  }

  /** Moving past a creditor (or debtor) with nothing left keeps the loop state. */
  lemma SkipCreditor(cs: seq<UserBalance>, ds: seq<UserBalance>, c: seq<UserBalance>, d: seq<UserBalance>,
                     out: seq<SimplifiedDebt>, toIx: seq<nat>, fromIx: seq<nat>, ci: nat, di: nat, distinct: bool)
    requires Progress(cs, ds, c, d, out, toIx, fromIx, ci, di, distinct)
    requires ci < |c| && c[ci].balance <= 0
    ensures Progress(cs, ds, c, d, out, toIx, fromIx, ci + 1, di, distinct)
  {
    assert c[ci].balance == 0;
  }

  lemma SkipDebtor(cs: seq<UserBalance>, ds: seq<UserBalance>, c: seq<UserBalance>, d: seq<UserBalance>,
                   out: seq<SimplifiedDebt>, toIx: seq<nat>, fromIx: seq<nat>, ci: nat, di: nat, distinct: bool)
    requires Progress(cs, ds, c, d, out, toIx, fromIx, ci, di, distinct)
    requires di < |d| && d[di].balance <= 0
    ensures Progress(cs, ds, c, d, out, toIx, fromIx, ci, di + 1, distinct)
  {
    assert d[di].balance == 0;
  }

  /** One payment of the smaller remaining balance keeps the loop state and moves a cursor. */
  lemma PayKeeps(cs: seq<UserBalance>, ds: seq<UserBalance>, c: seq<UserBalance>, d: seq<UserBalance>,
                 out: seq<SimplifiedDebt>, toIx: seq<nat>, fromIx: seq<nat>, ci: nat, di: nat, distinct: bool,
                 amount: int, debt: SimplifiedDebt, c': seq<UserBalance>, d': seq<UserBalance>, ci': nat, di': nat)
    requires Progress(cs, ds, c, d, out, toIx, fromIx, ci, di, distinct)
    requires distinct ==> DistinctIds(cs) && DistinctIds(ds)
    requires ci < |c| && di < |d| && c[ci].balance > 0 && d[di].balance > 0
    requires amount == if c[ci].balance <= d[di].balance then c[ci].balance else d[di].balance
    requires debt == DebtOf(d[di], c[ci], amount)
    requires c' == c[ci := c[ci].(balance := c[ci].balance - amount)]
    requires d' == d[di := d[di].(balance := d[di].balance - amount)]
    requires ci' == if c'[ci].balance <= 0 then ci + 1 else ci
    requires di' == if d'[di].balance <= 0 then di + 1 else di
    ensures ci' + di' > ci + di
    ensures Progress(cs, ds, c', d', out + [debt], toIx + [ci], fromIx + [di], ci', di', distinct)
  {
    MatchStep(cs, ds, c, d, out, ci, di, amount, debt, distinct);
    TotalUpdate(c, ci, c'[ci]);
    TotalUpdate(d, di, d'[di]);
    DrawnExtend(cs, ds, out, toIx, fromIx, ci, di, debt);
    RemainingLower(cs, c, ci, amount);
    RemainingLower(ds, d, di, amount);
  }

  /** Paying entry i down by `amount`, at most what it has left, keeps it in range. */
  lemma RemainingLower(orig: seq<UserBalance>, now: seq<UserBalance>, i: nat, amount: int)
    requires Remaining(orig, now) && i < |now| && 0 <= amount <= now[i].balance
    ensures Remaining(orig, now[i := now[i].(balance := now[i].balance - amount)])
  {
  }

  /** A further positive debt from working debtor di to working creditor ci. */
  lemma DrawnExtend(cs: seq<UserBalance>, ds: seq<UserBalance>, out: seq<SimplifiedDebt>,
                    toIx: seq<nat>, fromIx: seq<nat>, ci: nat, di: nat, debt: SimplifiedDebt)
    requires Drawn(cs, ds, out, toIx, fromIx) && ci < |cs| && di < |ds|
    requires debt.amount > 0 && debt == DebtOf(ds[di], cs[ci], debt.amount)
    ensures Drawn(cs, ds, out + [debt], toIx + [ci], fromIx + [di])
  {
    var out' := out + [debt];
    forall k | 0 <= k < |out'|
      ensures (toIx + [ci])[k] < |cs| && (fromIx + [di])[k] < |ds| && out'[k].amount > 0
      ensures out'[k] == DebtOf(ds[(fromIx + [di])[k]], cs[(toIx + [ci])[k]], out'[k].amount)
    {
      if k < |out| {
        assert out'[k] == out[k] && (toIx + [ci])[k] == toIx[k] && (fromIx + [di])[k] == fromIx[k];
      }
    }
  }

  /** One turn of the loop body, as a relation between the states before and after. */
  ghost predicate Step(c: seq<UserBalance>, d: seq<UserBalance>, out: seq<SimplifiedDebt>,
                       toIx: seq<nat>, fromIx: seq<nat>, ci: nat, di: nat,
                       c': seq<UserBalance>, d': seq<UserBalance>, out': seq<SimplifiedDebt>,
                       toIx': seq<nat>, fromIx': seq<nat>, ci': nat, di': nat) {
    ci < |c| && di < |d| &&
    if c[ci].balance <= 0 then
      c' == c && d' == d && out' == out && toIx' == toIx && fromIx' == fromIx && ci' == ci + 1 && di' == di
    else if d[di].balance <= 0 then
      c' == c && d' == d && out' == out && toIx' == toIx && fromIx' == fromIx && ci' == ci && di' == di + 1
    else
      var amount := if c[ci].balance <= d[di].balance then c[ci].balance else d[di].balance;
      && c' == c[ci := c[ci].(balance := c[ci].balance - amount)]
      && d' == d[di := d[di].(balance := d[di].balance - amount)]
      && out' == out + [DebtOf(d[di], c[ci], amount)] && toIx' == toIx + [ci] && fromIx' == fromIx + [di]
      && ci' == (if c'[ci].balance <= 0 then ci + 1 else ci)
      && di' == (if d'[di].balance <= 0 then di + 1 else di)
  }

  /** Every turn of the loop keeps its state and moves a cursor. */
  lemma Advance(cs: seq<UserBalance>, ds: seq<UserBalance>,
                c: seq<UserBalance>, d: seq<UserBalance>, out: seq<SimplifiedDebt>,
                toIx: seq<nat>, fromIx: seq<nat>, ci: nat, di: nat,
                c': seq<UserBalance>, d': seq<UserBalance>, out': seq<SimplifiedDebt>,
                toIx': seq<nat>, fromIx': seq<nat>, ci': nat, di': nat, distinct: bool)
    requires Progress(cs, ds, c, d, out, toIx, fromIx, ci, di, distinct)
    requires distinct ==> DistinctIds(cs) && DistinctIds(ds)
    requires Step(c, d, out, toIx, fromIx, ci, di, c', d', out', toIx', fromIx', ci', di')
    ensures ci' + di' > ci + di
    ensures Progress(cs, ds, c', d', out', toIx', fromIx', ci', di', distinct)
  {
    if c[ci].balance <= 0 {
      SkipCreditor(cs, ds, c, d, out, toIx, fromIx, ci, di, distinct);
    } else if d[di].balance <= 0 {
      SkipDebtor(cs, ds, c, d, out, toIx, fromIx, ci, di, distinct);
    } else {
      var amount := if c[ci].balance <= d[di].balance then c[ci].balance else d[di].balance;
      PayKeeps(cs, ds, c, d, out, toIx, fromIx, ci, di, distinct, amount, DebtOf(d[di], c[ci], amount),
               c', d', ci', di');
    }
  }

  /** At the end of the loop one side is fully paid and the debts are few. */
  lemma ProgressAtExit(cs: seq<UserBalance>, ds: seq<UserBalance>, c: seq<UserBalance>, d: seq<UserBalance>,
                       out: seq<SimplifiedDebt>, toIx: seq<nat>, fromIx: seq<nat>, ci: nat, di: nat, distinct: bool)
    requires Progress(cs, ds, c, d, out, toIx, fromIx, ci, di, distinct)
    requires ci == |cs| || di == |ds|
    ensures out == [] || |out| < |cs| + |ds|
    ensures (forall i | 0 <= i < |c| :: c[i].balance == 0) || (forall j | 0 <= j < |d| :: d[j].balance == 0)
    ensures TotalBalance(cs) - TotalBalance(c) == TotalBalance(ds) - TotalBalance(d)
    ensures Remaining(cs, c) && Remaining(ds, d) && Drawn(cs, ds, out, toIx, fromIx)
    ensures distinct ==> Received(cs, c, out) && Paid(ds, d, out)
  {
  }

  /** The two-cursor loop of `simplifyDebts` over its working copies: each step pays
      the smaller of the two remaining balances, lowers both by it and moves past every
      side that reaches zero. Debt k pays creditor toIx[k] on behalf of debtor fromIx[k];
      the loop ends with one side fully paid, having paid out as much as it collected. */
  method Settle(creditors: array<UserBalance>, debtors: array<UserBalance>, ghost distinct: bool)
    returns (simplified: seq<SimplifiedDebt>, ghost toIx: seq<nat>, ghost fromIx: seq<nat>,
             creditorIndex: nat, debtorIndex: nat)
    requires creditors != debtors
    requires forall i | 0 <= i < creditors.Length :: creditors[i].balance >= 0
    requires forall j | 0 <= j < debtors.Length :: debtors[j].balance >= 0
    requires distinct ==> DistinctIds(creditors[..]) && DistinctIds(debtors[..])
    modifies creditors, debtors
    ensures creditorIndex == creditors.Length || debtorIndex == debtors.Length
    ensures Progress(old(creditors[..]), old(debtors[..]), creditors[..], debtors[..], simplified, toIx, fromIx,
                     creditorIndex, debtorIndex, distinct)
  {
    ghost var cs, ds := creditors[..], debtors[..];
    ghost var c, d := cs, ds;
    simplified, toIx, fromIx := [], [], [];
    creditorIndex, debtorIndex := 0, 0;
    ProgressStart(cs, ds, distinct);

    while creditorIndex < creditors.Length && debtorIndex < debtors.Length
      invariant creditors.Length == |cs| && debtors.Length == |ds|
      invariant creditors[..] == c && debtors[..] == d
      invariant Progress(cs, ds, c, d, simplified, toIx, fromIx, creditorIndex, debtorIndex, distinct)
      decreases |cs| - creditorIndex + |ds| - debtorIndex
    {
      ghost var c0, d0, out0, toIx0, fromIx0, ci0, di0 := c, d, simplified, toIx, fromIx, creditorIndex, debtorIndex;
      var creditor := creditors[creditorIndex];
      var debtor := debtors[debtorIndex];

      // `balance < 0.001` on whole cents; the source's `continue`s become the else-branches
      if creditor.balance <= 0 {
        creditorIndex := creditorIndex + 1;
      } else if debtor.balance <= 0 {
        debtorIndex := debtorIndex + 1;
      } else {
        var amount := if creditor.balance <= debtor.balance then creditor.balance else debtor.balance;
        simplified := simplified + [DebtOf(debtor, creditor, amount)];
        toIx, fromIx := toIx + [creditorIndex], fromIx + [debtorIndex];
        creditor, debtor := creditor.(balance := creditor.balance - amount), debtor.(balance := debtor.balance - amount);
        creditors[creditorIndex], debtors[debtorIndex] := creditor, debtor;
        c, d := c[creditorIndex := creditor], d[debtorIndex := debtor];
        if creditor.balance <= 0 {
          creditorIndex := creditorIndex + 1;
        }
        if debtor.balance <= 0 {
          debtorIndex := debtorIndex + 1;
        }
      }
      Advance(cs, ds, c0, d0, out0, toIx0, fromIx0, ci0, di0, c, d, simplified, toIx, fromIx,
              creditorIndex, debtorIndex, distinct);
    }
  }


  // ---------------------------------------------------------------------------
  // calculateGroupBalance
  // ---------------------------------------------------------------------------

  /** `splits.find(s => s.userId === id)`: the first split of `id`, if any. */
  function FindSplit(splits: seq<Split>, id: string): (r: Option<Split>)
    ensures r.None? <==> forall s | s in splits :: s.userId != id
    ensures r.Some? ==> r.value in splits && r.value.userId == id
  {
    if splits == [] then None
    else if splits[0].userId == id then Some(splits[0])
    else
      assert splits == [splits[0]] + splits[1..];
      FindSplit(splits[1..], id)
  }

  /** `find` stops at the first match: it is the first split of `id`. */
  lemma {:induction false} FindSplitFirst(splits: seq<Split>, id: string)
    requires FindSplit(splits, id).Some?
    ensures exists i | 0 <= i < |splits| :: splits[i] == FindSplit(splits, id).value &&
                                             forall j | 0 <= j < i :: splits[j].userId != id
  {
    if splits[0].userId != id {
      FindSplitFirst(splits[1..], id);
      var i :| 0 <= i < |splits[1..]| && splits[1..][i] == FindSplit(splits[1..], id).value &&
                forall j | 0 <= j < i :: splits[1..][j].userId != id;
      assert splits[i + 1] == FindSplit(splits, id).value;
      assert forall j | 0 <= j < i + 1 :: splits[j].userId != id by {
        forall j | 0 <= j < i + 1 ensures splits[j].userId != id {
          if j > 0 {
            assert splits[j] == splits[1..][j - 1];
          }
        }
      }
    }
  }

  /** What the found split debits: its amount, or nothing when `id` has no split. */
  function FoundDebit(id: string, splits: seq<Split>): int {
    match FindSplit(splits, id)
    case Some(s) => s.amount
    case None => 0
  }

  /** The payer is credited; only the first split of `id` is debited. */
  function GroupTransactionEffect(id: string, t: Transaction): int {
    (if t.paidById == id then t.amount else 0) - FoundDebit(id, t.splits)
  }

  function GroupTransactionsNet(id: string, txs: seq<Transaction>): int {
    if txs == [] then 0
    else GroupTransactionsNet(id, txs[..|txs| - 1]) + GroupTransactionEffect(id, txs[|txs| - 1])
  }

  /** The balance `calculateGroupBalance` reports for `id`. */
  function GroupBalance(id: string, txs: seq<Transaction>, sts: seq<Settlement>): int {
    GroupTransactionsNet(id, txs) + SettlementsNet(id, sts)
  }

  /** `id` has at most one split in the list. */
  predicate AtMostOneSplit(id: string, splits: seq<Split>) {
    forall i, j | 0 <= i < j < |splits| && splits[i].userId == id :: splits[j].userId != id
  }

  /** The single-member balance: the member's paid amounts, minus their (first) split in
      every transaction, plus the settlements they paid, minus those they received. When
      no transaction splits twice to the member it is the member's net balance. */
  method CalculateGroupBalance(userId: string, transactions: seq<Transaction>, settlements: seq<Settlement>)
    returns (balance: int)
    ensures balance == GroupBalance(userId, transactions, settlements)
    ensures (forall t | t in transactions :: AtMostOneSplit(userId, t.splits)) ==>
      balance == NetBalance(userId, transactions, settlements)
  {
    balance := 0;
    for i := 0 to |transactions|
      invariant balance == GroupTransactionsNet(userId, transactions[..i])
    {
      var t := transactions[i];
      assert transactions[..i + 1][..i] == transactions[..i];
      if t.paidById == userId {
        balance := balance + t.amount;
      }
      var userSplit := FindSplit(t.splits, userId);
      if userSplit.Some? {
        balance := balance - userSplit.value.amount;
      }
    }
    assert transactions[..|transactions|] == transactions;

    for j := 0 to |settlements|
      invariant balance == GroupTransactionsNet(userId, transactions) + SettlementsNet(userId, settlements[..j])
    {
      var s := settlements[j];
      assert settlements[..j + 1][..j] == settlements[..j];
      if s.paidById == userId {
        balance := balance + s.amount;
      }
      if s.receivedById == userId {
        balance := balance - s.amount;
      }
    }
    assert settlements[..|settlements|] == settlements;

    if forall t | t in transactions :: AtMostOneSplit(userId, t.splits) {
      GroupBalanceIsNet(userId, transactions, settlements);
    }
  }

  /** `find` on a list extended at the end. */
  lemma {:induction false} FindSplitAppend(splits: seq<Split>, x: Split, id: string)
    ensures FindSplit(splits + [x], id) ==
      if FindSplit(splits, id).Some? then FindSplit(splits, id)
      else if x.userId == id then Some(x) else None
  {
    if splits != [] {
      assert (splits + [x])[1..] == splits[1..] + [x];
      FindSplitAppend(splits[1..], x, id);
    }
  }

  /** With at most one split of `id`, the first split is all the splits charge to `id`. */
  lemma {:induction false} FoundDebitIsSplitDebit(id: string, splits: seq<Split>)
    requires AtMostOneSplit(id, splits)
    ensures FoundDebit(id, splits) == SplitDebit(id, splits)
  {
    if splits != [] {
      var init, last := splits[..|splits| - 1], splits[|splits| - 1];
      assert splits == init + [last];
      assert AtMostOneSplit(id, init);
      FoundDebitIsSplitDebit(id, init);
      FindSplitAppend(init, last, id);
      if last.userId == id {
        assert forall s | s in init :: s.userId != id;
        SplitDebitUnmatched(id, init);
      }
    }
  }

  /** The two balance computations agree unless a transaction splits twice to the member. */
  lemma {:induction false} GroupBalanceIsNet(id: string, txs: seq<Transaction>, sts: seq<Settlement>)
    requires forall t | t in txs :: AtMostOneSplit(id, t.splits)
    ensures GroupBalance(id, txs, sts) == NetBalance(id, txs, sts)
  {
    GroupTransactionsIsNet(id, txs);
  }

  lemma {:induction false} GroupTransactionsIsNet(id: string, txs: seq<Transaction>)
    requires forall t | t in txs :: AtMostOneSplit(id, t.splits)
    ensures GroupTransactionsNet(id, txs) == TransactionsNet(id, txs)
  {
    if txs != [] {
      var init := txs[..|txs| - 1];
      assert forall t | t in init :: t in txs;
      GroupTransactionsIsNet(id, init);
      FoundDebitIsSplitDebit(id, txs[|txs| - 1].splits);
    }
  }

  /** A transaction that splits twice to one member: `find` charges the first split only,
      the net balance charges both. */
  lemma GroupBalanceCountsFirstSplitOnly()
    ensures var t := Transaction("payer", 700, [Split("u", 300), Split("u", 400)]);
            GroupBalance("u", [t], []) == -300 && NetBalance("u", [t], []) == -700
  {
    var splits := [Split("u", 300), Split("u", 400)];
    assert FindSplit(splits, "u") == Some(Split("u", 300));
    assert splits[..1] == [Split("u", 300)];
    assert SplitDebit("u", splits) == 700;
  }

  // ---------------------------------------------------------------------------
  // The balance summary of a group: calculateNetBalances, then simplifyDebts
  // ---------------------------------------------------------------------------

  lemma DistinctUsersDistinctIds(users: seq<User>, r: seq<UserBalance>)
    requires DistinctStrings(Ids(users)) && |r| == |users|
    requires forall i | 0 <= i < |users| :: r[i].userId == users[i].id
    ensures DistinctIds(r) && Consistent(r)
  {
    assert forall i | 0 <= i < |users| :: Ids(users)[i] == r[i].userId;
    forall i, j | 0 <= i < |r| && 0 <= j < |r| && r[i].userId == r[j].userId
      ensures r[i].balance == r[j].balance
    {
      assert Ids(users)[i] == Ids(users)[j];
    }
  }

  /** The member balances and the suggested payments of a group. For distinct members
      nobody is told to pay themselves and no balance is overpaid; when every reference is
      to a member and every transaction's splits add up to it, the payments settle every
      member exactly. */
  method SummarizeGroup(transactions: seq<Transaction>, settlements: seq<Settlement>, members: seq<User>)
    returns (balances: seq<UserBalance>, debts: seq<SimplifiedDebt>)
    ensures |balances| == |members|
    ensures forall i | 0 <= i < |members| ::
      balances[i] == UserBalance(members[i].id, members[i].username, members[i].name,
                                 NetBalance(members[i].id, transactions, settlements))
    ensures forall k | 0 <= k < |debts| :: debts[k].amount > 0 && DebtorToCreditor(debts[k], balances)
    ensures DistinctStrings(Ids(members)) ==>
      forall k | 0 <= k < |debts| :: debts[k].fromUserId != debts[k].toUserId
    ensures DistinctStrings(Ids(members)) ==>
      forall i | 0 <= i < |balances| :: NoOvershoot(balances[i], debts)
    ensures (DistinctStrings(Ids(members)) && ReferencesKnown(transactions, settlements, Ids(members)) &&
             SplitsExact(transactions)) ==>
      forall i | 0 <= i < |members| :: AfterSettling(balances[i], debts) == 0
  {
    balances := CalculateNetBalances(transactions, settlements, members);
    debts := SimplifyDebts(balances);
    if DistinctStrings(Ids(members)) {
      DistinctUsersDistinctIds(members, balances);
    }
  }
}
