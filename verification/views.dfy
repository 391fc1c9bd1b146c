/**
  The read-only queries of `MemStorage`: newest-first transaction lists,
  the volume / count / today statistics, the top-merchants ranking and
  the unread alerts. "Today" starts at the local midnight the caller
  passes in (`setHours(0, 0, 0, 0)` depends on the host's time zone).
*/
module Views {
  import opened Options
  import opened Seqs
  import opened Schema
  import opened Storage

  /** The `limit = 10` default of getTransactionsByUserId and getRecentTransactions. */
  const DefaultLimit: nat := 10

  function CreatedAt(t: Transaction): int { t.createdAt }
  function Amount(t: Transaction): int { t.amount }
  function IsCompleted(t: Transaction): bool { t.status == Completed }

  function OfUser(userId: nat): Transaction -> bool {
    (t: Transaction) => t.userId == userId
  }

  /** `sort((a, b) => b.createdAt - a.createdAt).slice(0, limit)`. */
  function NewestFirst(txs: seq<Transaction>, limit: nat): (r: seq<Transaction>)
    ensures |r| == if limit <= |txs| then limit else |txs|
    ensures SortedDesc(r, CreatedAt)
    ensures forall t :: t in r ==> t in txs
    ensures multiset(r) <= multiset(txs)
  {
    var sorted := SortDesc(txs, CreatedAt);
    var r := Take(sorted, limit);
    TakeMultiset(sorted, limit);
    assert forall t :: t in r ==> t in sorted;
    assert forall t :: t in sorted ==> multiset(sorted)[t] > 0;
    r
  }

  /**
    The list holds the newest transactions: whatever it leaves out is no
    newer than anything it returns, and when there are at most `limit`
    it returns all of them.
  */
  lemma NewestFirstKeepsNewest(txs: seq<Transaction>, limit: nat)
    ensures var r := NewestFirst(txs, limit);
      && (forall t, x :: t in txs && t !in r && x in r ==> x.createdAt >= t.createdAt)
      && (|txs| <= limit ==> multiset(r) == multiset(txs))
  {
    var sorted := SortDesc(txs, CreatedAt);
    var r := NewestFirst(txs, limit);
    TakeSortedPrefix(sorted, limit, CreatedAt);
    forall t, x | t in txs && t !in r && x in r ensures x.createdAt >= t.createdAt {
      assert multiset(sorted)[t] > 0;
      var j :| 0 <= j < |sorted| && sorted[j] == t;
      var i :| 0 <= i < |r| && r[i] == x;
      if j < |r| {
        assert false;
      }
      assert CreatedAt(r[i]) >= CreatedAt(sorted[j]);
    }
    if |txs| <= limit {
      assert r == sorted;
    }
  }

  /** `getTransactionsByUserId(userId, limit = 10)`. */
  function TransactionsByUserId(s: Store, userId: nat, limit: Option<nat>): (r: seq<Transaction>)
    ensures |r| <= limit.GetOr(DefaultLimit)
    ensures forall t :: t in r ==> t.userId == userId && t in AllTransactions(s)
    ensures SortedDesc(r, CreatedAt)
  {
    NewestFirst(Filter(AllTransactions(s), OfUser(userId)), limit.GetOr(DefaultLimit))
  }

  /** A transaction with its user and merchant looked up by id. */
  datatype Joined = Joined(transaction: Transaction, user: Option<User>, merchant: Option<Merchant>)

  function JoinOne(s: Store, t: Transaction): Joined {
    Joined(t, GetUser(s, t.userId), GetMerchant(s, t.merchantId))
  }

  /** `getRecentTransactions(limit = 10)`: all transactions newest first, with user and merchant. */
  function RecentTransactions(s: Store, limit: Option<nat>): (r: seq<Joined>)
    ensures var n := limit.GetOr(DefaultLimit);
      |r| == if n <= |AllTransactions(s)| then n else |AllTransactions(s)|
    ensures forall j :: j in r ==> j.transaction in AllTransactions(s)
    ensures forall i, j :: 0 <= i < j < |r| ==> r[i].transaction.createdAt >= r[j].transaction.createdAt
    ensures multiset(Transactions(r)) <= multiset(AllTransactions(s))
  {
    var txs := NewestFirst(AllTransactions(s), limit.GetOr(DefaultLimit));
    JoinAllTransactions(s, txs);
    JoinAll(s, txs)
  }

  /** `transactions.map(...)`: each transaction joined with its user and merchant. */
  function JoinAll(s: Store, txs: seq<Transaction>): (r: seq<Joined>)
    ensures |r| == |txs| && forall i :: 0 <= i < |txs| ==> r[i] == JoinOne(s, txs[i])
  {
    seq(|txs|, i requires 0 <= i < |txs| => JoinOne(s, txs[i]))
  }

  /** Joining keeps the transactions as they were, in order. */
  lemma JoinAllTransactions(s: Store, txs: seq<Transaction>)
    ensures Transactions(JoinAll(s, txs)) == txs
    ensures forall j :: j in JoinAll(s, txs) ==> j == JoinOne(s, j.transaction) && j.transaction in txs
  {
    var r := JoinAll(s, txs);
    assert forall i :: 0 <= i < |txs| ==> txs[i] in txs;
    assert Transactions(r) == txs;
  }

  /** The transactions of a joined list, in order. */
  function Transactions(js: seq<Joined>): (r: seq<Transaction>)
    ensures |r| == |js| && forall i :: 0 <= i < |js| ==> r[i] == js[i].transaction
  {
    seq(|js|, i requires 0 <= i < |js| => js[i].transaction)
  }

  /**
    The dashboard's list holds the newest transactions of the store:
    whatever it leaves out is no newer than anything it lists, and when
    the store holds at most `limit` it lists all of them.
  */
  lemma RecentTransactionsNewest(s: Store, limit: Option<nat>)
    ensures var r := RecentTransactions(s, limit);
      var txs := Transactions(r);
      && multiset(txs) <= multiset(AllTransactions(s))
      && (forall t, x :: t in AllTransactions(s) && t !in txs && x in txs ==> x.createdAt >= t.createdAt)
      && (|AllTransactions(s)| <= limit.GetOr(DefaultLimit) ==> multiset(txs) == multiset(AllTransactions(s)))
  {
    var sorted := NewestFirst(AllTransactions(s), limit.GetOr(DefaultLimit));
    NewestFirstKeepsNewest(AllTransactions(s), limit.GetOr(DefaultLimit));
    JoinAllTransactions(s, sorted);
  }

  /** In a valid store every joined user and merchant exists (the source's `!` assertions hold). */
  lemma RecentTransactionsJoined(s: Store, limit: Option<nat>)
    requires WellFormed(s)
    ensures forall j :: j in RecentTransactions(s, limit) ==>
      && j.transaction.userId in s.users && j.user == Some(s.users[j.transaction.userId])
      && j.transaction.merchantId in s.merchants && j.merchant == Some(s.merchants[j.transaction.merchantId])
  {
    ColumnMembers(s.transactions, s.nextTransactionId);
    JoinAllTransactions(s, NewestFirst(AllTransactions(s), limit.GetOr(DefaultLimit)));
  }

  /** `getTotalVolume`: the amounts of the completed transactions, added up. */
  function TotalVolume(s: Store): (r: Cents)
    ensures r == SumOf(AllTransactions(s), Masked(IsCompleted, Amount))
  {
    SumFilter(AllTransactions(s), IsCompleted, Amount);
    SumOf(Filter(AllTransactions(s), IsCompleted), Amount)
  }

  /** `getTotalTransactionCount`: the size of the table, whatever the statuses. */
  function TotalTransactionCount(s: Store): (r: nat)
    ensures TransactionsKeyed(s) ==> r == |AllTransactions(s)| == s.nextTransactionId - 1
  {
    KeyedCount(s);
    |s.transactions|
  }

  lemma KeyedCount(s: Store)
    ensures TransactionsKeyed(s) ==> |s.transactions| == |AllTransactions(s)| == s.nextTransactionId - 1
  {
    if TransactionsKeyed(s) {
      ColumnDense(s.transactions, s.nextTransactionId);
      DenseSize(s.transactions, s.nextTransactionId);
    }
  }

  /** In a valid store the count is the number of rows listed and the last id issued. */
  lemma TotalTransactionCountValid(s: Store)
    requires WellFormed(s)
    ensures TotalTransactionCount(s) == |AllTransactions(s)| == s.nextTransactionId - 1
  {
    ColumnDense(s.transactions, s.nextTransactionId);
    DenseSize(s.transactions, s.nextTransactionId);
  }

  /** A map keyed by exactly 1 .. next-1 has next-1 entries. */
  lemma {:induction false} DenseSize<T>(m: map<nat, T>, next: nat)
    requires Dense(m, next)
    ensures |m| == next - 1
    decreases next
  {
    if next > 1 {
      var m' := map k | k in m && k != next - 1 :: m[k];
      assert m.Keys == m'.Keys + {next - 1};
      DenseSize(m', next - 1);
    } else {
      assert m.Keys == {};
    }
  }

  function FailedSince(midnight: Time): Transaction -> bool {
    (t: Transaction) => t.status == Failed && t.createdAt >= midnight
  }

  /** `getFailedTransactionsToday`. */
  function FailedToday(s: Store, midnight: Time): (r: nat)
    ensures r <= |AllTransactions(s)|
  {
    |Filter(AllTransactions(s), FailedSince(midnight))|
  }

  function ExecutedSince(midnight: Time): BotCommand -> bool {
    (c: BotCommand) => c.executedAt >= midnight
  }

  /** `getCommandsToday`. */
  function CommandsToday(s: Store, midnight: Time): (r: nat)
    ensures r <= |AllCommands(s)|
  {
    |Filter(AllCommands(s), ExecutedSince(midnight))|
  }

  /** A new transaction counts as failed today exactly when it is created failed at or after midnight. */
  lemma FailedTodayCreate(s: Store, nt: NewTransaction, now: Time, midnight: Time)
    requires s.nextTransactionId >= 1
    ensures FailedToday(CreateTransaction(s, nt, now).0, midnight)
      == FailedToday(s, midnight) + (if nt.status == Failed && now >= midnight then 1 else 0)
  {
    var (t, tx) := CreateTransaction(s, nt, now);
    ColumnSnoc(s.transactions, s.nextTransactionId, tx);
    FilterSnoc(AllTransactions(s), tx, FailedSince(midnight));
  }

  /**
    A status change moves the failed-today count by one at most: down when
    a failed transaction of today leaves the failed status, up when one of
    today enters it; creation times never change.
  */
  lemma FailedTodayUpdate(s: Store, id: nat, status: Status, now: Time, midnight: Time)
    requires TransactionsKeyed(s)
    ensures FailedToday(UpdateTransactionStatus(s, id, status, now).0, midnight)
      == FailedToday(s, midnight)
         - (if id in s.transactions && FailedSince(midnight)(s.transactions[id]) then 1 else 0)
         + (if id in s.transactions && status == Failed && s.transactions[id].createdAt >= midnight then 1 else 0)
  {
    if id in s.transactions {
      var t := UpdateTransactionStatus(s, id, status, now).0;
      var v := s.transactions[id].(status := status, updatedAt := now);
      UpdateTransactionStatusColumn(s, id, status, now);
      FailedTodayReplaced(s, t, id - 1, v, midnight);
    }
  }

  /** Replacing one listed transaction moves the failed-today count by its before and after membership. */
  lemma FailedTodayReplaced(s: Store, t: Store, i: nat, v: Transaction, midnight: Time)
    requires i < |AllTransactions(s)| && AllTransactions(t) == AllTransactions(s)[i := v]
    ensures FailedToday(t, midnight) == FailedToday(s, midnight)
      - (if FailedSince(midnight)(AllTransactions(s)[i]) then 1 else 0)
      + (if FailedSince(midnight)(v) then 1 else 0)
  {
    FilterUpdateCount(AllTransactions(s), i, v, FailedSince(midnight));
  }

  /** Every logged command counts today when it runs at or after midnight. */
  lemma CommandsTodayCreate(s: Store, nc: NewBotCommand, now: Time, midnight: Time)
    requires s.nextCommandId >= 1
    ensures CommandsToday(CreateBotCommand(s, nc, now).0, midnight)
      == CommandsToday(s, midnight) + (if now >= midnight then 1 else 0)
  {
    var (t, c) := CreateBotCommand(s, nc, now);
    ColumnSnoc(s.commands, s.nextCommandId, c);
    FilterSnoc(AllCommands(s), c, ExecutedSince(midnight));
  }

  // ------------------------------------------------------ top merchants

  datatype MerchantRevenue = MerchantRevenue(merchant: Merchant, totalRevenue: Cents, orderCount: nat)

  function RevenueOf(e: MerchantRevenue): int { e.totalRevenue }

  function CompletedFor(merchantId: nat): Transaction -> bool {
    (t: Transaction) => t.merchantId == merchantId && t.status == Completed
  }

  /** One merchant's figures: the sum and the number of its completed transactions. */
  function Revenue(s: Store, m: Merchant): MerchantRevenue {
    var mine := Filter(AllTransactions(s), CompletedFor(m.id));
    MerchantRevenue(m, SumOf(mine, Amount), |mine|)
  }

  /** `merchants.map(...)`, before sorting. */
  function RevenueTable(s: Store, ms: seq<Merchant>): (r: seq<MerchantRevenue>)
    ensures |r| == |ms|
    ensures forall i :: 0 <= i < |ms| ==> r[i] == Revenue(s, ms[i])
  {
    if |ms| == 0 then [] else RevenueTable(s, ms[..|ms| - 1]) + [Revenue(s, ms[|ms| - 1])]
  }

  /**
    `getTopMerchants`: every merchant with its completed revenue and order
    count, highest revenue first, ties in id order.
  */
  function TopMerchants(s: Store): (r: seq<MerchantRevenue>)
    ensures |r| == |AllMerchants(s)|
    ensures SortedDesc(r, RevenueOf)
    ensures forall e :: e in r ==> e.merchant in AllMerchants(s) && e == Revenue(s, e.merchant)
    ensures forall m :: m in AllMerchants(s) ==> Revenue(s, m) in r
  {
    var table := RevenueTable(s, AllMerchants(s));
    var r := SortDesc(table, RevenueOf);
    assert forall e :: e in r ==> multiset(table)[e] > 0;
    assert forall m :: m in AllMerchants(s) ==> Revenue(s, m) in table;
    assert forall e :: e in table ==> multiset(r)[e] > 0;
    r
  }

  /** Row k of the unsorted table is merchant k+1. */
  lemma RevenueTableRows(s: Store)
    requires MerchantsKeyed(s)
    ensures var table := RevenueTable(s, AllMerchants(s));
      && |table| == s.nextMerchantId - 1
      && forall k :: 0 <= k < |table| ==> table[k] == Revenue(s, s.merchants[k + 1]) && table[k].merchant.id == k + 1
  {
    ColumnDense(s.merchants, s.nextMerchantId);
  }

  lemma RevenueTableDistinct(s: Store)
    requires MerchantsKeyed(s)
    ensures Distinct(RevenueTable(s, AllMerchants(s)))
  {
    RevenueTableRows(s);
  }

  /** Every ranked row is the row of the stored merchant with its id. */
  lemma TopMerchantsRows(s: Store)
    requires MerchantsKeyed(s)
    ensures forall e :: e in TopMerchants(s) ==>
      e.merchant.id in s.merchants && e == Revenue(s, s.merchants[e.merchant.id])
  {
    var table := RevenueTable(s, AllMerchants(s));
    RevenueTableRows(s);
    forall e | e in TopMerchants(s)
      ensures e.merchant.id in s.merchants && e == Revenue(s, s.merchants[e.merchant.id])
    {
      assert e in table by {
        assert multiset(TopMerchants(s))[e] > 0;
      }
      var k :| 0 <= k < |table| && table[k] == e;
    }
  }

  /** In a valid store the ranking names every merchant exactly once. */
  lemma TopMerchantsEachOnce(s: Store)
    requires MerchantsKeyed(s)
    ensures var r := TopMerchants(s);
      && (forall i, j :: 0 <= i < j < |r| ==> r[i].merchant.id != r[j].merchant.id)
      && (forall id :: id in s.merchants <==> exists i :: 0 <= i < |r| && r[i].merchant.id == id)
  {
    TopMerchantsIdsDistinct(s);
    TopMerchantsCoversIds(s);
  }

  /** No merchant id appears twice in the ranking. */
  lemma TopMerchantsIdsDistinct(s: Store)
    requires MerchantsKeyed(s)
    ensures var r := TopMerchants(s);
      forall i, j :: 0 <= i < j < |r| ==> r[i].merchant.id != r[j].merchant.id
  {
    var r := TopMerchants(s);
    RevenueTableDistinct(s);
    DistinctPermutation(RevenueTable(s, AllMerchants(s)), r);
    TopMerchantsRows(s);
    forall i, j | 0 <= i < j < |r| ensures r[i].merchant.id != r[j].merchant.id {
      assert r[i] in r && r[j] in r;
    }
  }

  /** The ranking's ids are exactly the stored merchant ids. */
  lemma TopMerchantsCoversIds(s: Store)
    requires MerchantsKeyed(s)
    ensures var r := TopMerchants(s);
      forall id :: id in s.merchants <==> exists i :: 0 <= i < |r| && r[i].merchant.id == id
  {
    var r := TopMerchants(s);
    TopMerchantsRows(s);
    forall id | id in s.merchants ensures exists i :: 0 <= i < |r| && r[i].merchant.id == id {
      ColumnMembers(s.merchants, s.nextMerchantId);
      assert s.merchants[id] in AllMerchants(s);
      var i :| 0 <= i < |r| && r[i] == Revenue(s, s.merchants[id]);
    }
    forall id | exists i :: 0 <= i < |r| && r[i].merchant.id == id ensures id in s.merchants {
      var i :| 0 <= i < |r| && r[i].merchant.id == id;
      assert r[i] in r;
    }
  }

  function RowId(e: MerchantRevenue): int { e.merchant.id }

  /**
    The sort is stable and the table is in id order, so merchants with
    equal revenue are ranked by id, as on a fresh store where all revenues
    are zero.
  */
  lemma TopMerchantsTiesInIdOrder(s: Store)
    requires MerchantsKeyed(s)
    ensures var r := TopMerchants(s);
      forall i, j :: 0 <= i < j < |r| && r[i].totalRevenue == r[j].totalRevenue ==> r[i].merchant.id < r[j].merchant.id
  {
    var table := RevenueTable(s, AllMerchants(s));
    var r := TopMerchants(s);
    assert r == SortDesc(table, RevenueOf);
    RevenueTableInIdOrder(s);
    forall i, j | 0 <= i < j < |r| && r[i].totalRevenue == r[j].totalRevenue
      ensures r[i].merchant.id < r[j].merchant.id
    {
      SortDescTies(table, RevenueOf, RowId, i, j);
    }
  }

  lemma RevenueTableInIdOrder(s: Store)
    requires MerchantsKeyed(s)
    ensures Increasing(RevenueTable(s, AllMerchants(s)), RowId)
  {
    RevenueTableRows(s);
  }


  /** Revenue of merchants 1 .. n-1, one merchant id at a time. */
  function RevenueBelow(txs: seq<Transaction>, n: nat): int
  {
    if n <= 1 then 0 else RevenueBelow(txs, n - 1) + SumOf(Filter(txs, CompletedFor(n - 1)), Amount)
  }

  /** A completed amount whose merchant id is below `n`, else 0. */
  function CompletedBelow(n: nat): Transaction -> int {
    (t: Transaction) => if t.status == Completed && 1 <= t.merchantId < n then t.amount else 0
  }

  lemma {:induction false} RevenueBelowOne(t: Transaction, n: nat)
    ensures RevenueBelow([t], n) == CompletedBelow(n)(t)
    decreases n
  {
    if n > 1 {
      RevenueBelowOne(t, n - 1);
      FilterSnoc([], t, CompletedFor(n - 1));
      assert [t][..0] == [];
      var f := Filter([t], CompletedFor(n - 1));
      if CompletedFor(n - 1)(t) {
        assert f == [t];
        assert SumOf(f, Amount) == t.amount;
      } else {
        assert f == [];
      }
    }
  }

  lemma {:induction false} RevenueBelowSnoc(txs: seq<Transaction>, t: Transaction, n: nat)
    ensures RevenueBelow(txs + [t], n) == RevenueBelow(txs, n) + RevenueBelow([t], n)
    decreases n
  {
    if n > 1 {
      RevenueBelowSnoc(txs, t, n - 1);
      FilterAppend(txs, [t], CompletedFor(n - 1));
      SumAppend(Filter(txs, CompletedFor(n - 1)), Filter([t], CompletedFor(n - 1)), Amount);
      assert [] + [t] == [t];
      FilterAppend([], [t], CompletedFor(n - 1));
    }
  }

  /** Summing per merchant id equals summing each completed amount whose merchant id is below n. */
  lemma {:induction false} RevenueBelowSum(txs: seq<Transaction>, n: nat)
    ensures RevenueBelow(txs, n) == SumOf(txs, CompletedBelow(n))
    decreases |txs|
  {
    if |txs| == 0 {
      RevenueBelowEmpty(n);
    } else {
      var init, t := txs[..|txs| - 1], txs[|txs| - 1];
      assert txs == init + [t];
      RevenueBelowSum(init, n);
      RevenueBelowSnoc(init, t, n);
      RevenueBelowOne(t, n);
    }
  }

  lemma {:induction false} RevenueBelowEmpty(n: nat)
    ensures RevenueBelow([], n) == 0
    decreases n
  {
    if n > 1 {
      RevenueBelowEmpty(n - 1);
    }
  }

  lemma RevenueTableSnoc(s: Store, ms: seq<Merchant>, m: Merchant)
    ensures SumOf(RevenueTable(s, ms + [m]), RevenueOf)
      == SumOf(RevenueTable(s, ms), RevenueOf) + Revenue(s, m).totalRevenue
  {
    var table := RevenueTable(s, ms);
    assert (ms + [m])[..|ms|] == ms;
    assert RevenueTable(s, ms + [m]) == table + [Revenue(s, m)];
    assert (table + [Revenue(s, m)])[..|table|] == table;
  }

  /** The table of the first merchants sums to their revenue below the next id. */
  lemma {:induction false} RevenueTableSum(s: Store, n: nat)
    requires MerchantsKeyed(s) && 1 <= n <= s.nextMerchantId
    ensures SumOf(RevenueTable(s, Column(s.merchants, n)), RevenueOf) == RevenueBelow(AllTransactions(s), n)
    decreases n
  {
    if n > 1 {
      RevenueTableSum(s, n - 1);
      var m := s.merchants[n - 1];
      assert Column(s.merchants, n) == Column(s.merchants, n - 1) + [m];
      RevenueTableSnoc(s, Column(s.merchants, n - 1), m);
      assert m.id == n - 1;
    }
  }

  /** Every stored transaction names a merchant below the next merchant id. */
  lemma CompletedBelowMasked(s: Store)
    requires WellFormed(s)
    ensures forall t :: t in AllTransactions(s) ==>
      CompletedBelow(s.nextMerchantId)(t) == Masked(IsCompleted, Amount)(t)
  {
    ColumnMembers(s.transactions, s.nextTransactionId);
    forall t | t in AllTransactions(s)
      ensures CompletedBelow(s.nextMerchantId)(t) == Masked(IsCompleted, Amount)(t)
    {
      var i :| i in s.transactions && s.transactions[i] == t;
      assert t.merchantId in s.merchants;
      assert 1 <= t.merchantId < s.nextMerchantId;
      assert Masked(IsCompleted, Amount)(t) == if IsCompleted(t) then Amount(t) else 0;
    }
  }

  /**
    In a valid store the ranking accounts for the whole volume: the
    merchants' revenues add up to the total of completed amounts, since
    every transaction names a stored merchant.
  */
  lemma TopMerchantsSumToVolume(s: Store)
    requires WellFormed(s)
    ensures SumOf(TopMerchants(s), RevenueOf) == TotalVolume(s)
  {
    var txs := AllTransactions(s);
    var table := RevenueTable(s, AllMerchants(s));
    SortDescSum(table, RevenueOf, RevenueOf);
    RevenueTableSum(s, s.nextMerchantId);
    RevenueBelowSum(txs, s.nextMerchantId);
    SumFilter(txs, IsCompleted, Amount);
    CompletedBelowMasked(s);
    SumSameTerms(txs, CompletedBelow(s.nextMerchantId), Masked(IsCompleted, Amount));
  }

  lemma {:induction false} SumSameTerms(txs: seq<Transaction>, f: Transaction -> int, g: Transaction -> int)
    requires forall t :: t in txs ==> f(t) == g(t)
    ensures SumOf(txs, f) == SumOf(txs, g)
    decreases |txs|
  {
    if |txs| != 0 {
      SumSameTerms(txs[..|txs| - 1], f, g);
    }
  }

  // ------------------------------------------------------------- alerts

  function AlertCreatedAt(a: Alert): int { a.createdAt }
  function IsUnread(a: Alert): bool { !a.isRead }

  /** `getUnreadAlerts`: the alerts not yet read, newest first. */
  function UnreadAlerts(s: Store): (r: seq<Alert>)
    ensures forall a :: a in r <==> a in AllAlerts(s) && !a.isRead
    ensures SortedDesc(r, AlertCreatedAt)
    ensures multiset(r) == multiset(Filter(AllAlerts(s), IsUnread))
  {
    var unread := Filter(AllAlerts(s), IsUnread);
    var r := SortDesc(unread, AlertCreatedAt);
    assert forall a :: a in r <==> multiset(r)[a] > 0;
    assert forall a :: a in unread <==> multiset(unread)[a] > 0;
    r
  }

  /** In a valid store the unread list is exactly the stored alerts whose flag is clear. */
  lemma UnreadAlertsExact(s: Store)
    requires WellFormed(s)
    ensures forall a :: a in UnreadAlerts(s) <==> exists i :: i in s.alerts && s.alerts[i] == a && !a.isRead
  {
    ColumnMembers(s.alerts, s.nextAlertId);
  }
}
