/**
  The state transitions the slash-command handlers perform on the ledger,
  with the chat I/O stripped: each handler takes the store and its
  inputs and returns the new store and what it would reply with. The
  clock (`Date.now()`) and the random draw of `generateTransactionId`
  are parameters; one handler call reads one clock value.
*/
module Bot {
  import opened Options
  import opened Seqs
  import opened Schema
  import opened Storage
  import opened Views
  import opened Digits

  /** The Discord account issuing or named by a command. */
  datatype DiscordUser = DiscordUser(id: string, username: string)

  /** `ensureUser`: the account of that Discord id, opened with 1000.00 if there is none. */
  function EnsureUser(s: Store, who: DiscordUser, now: Time): (r: (Store, User))
    ensures OnlyUsersChanged(s, r.0)
    ensures r.1.discordId == who.id
    ensures r.0.nextUserId == s.nextUserId || r.0.nextUserId == s.nextUserId + 1
  {
    match UserByDiscordId(s, who.id)
    case Some(u) => (s, u)
    case None => CreateUser(s, NewUser(who.id, who.username, Some(StartingBalance)), now)
  }

  /** The balance a handler sees for `who`: the stored one, or that of the account it is about to open. */
  function BalanceOf(s: Store, who: DiscordUser): Cents {
    match UserByDiscordId(s, who.id)
    case Some(u) => u.balance
    case None => StartingBalance
  }

  // ---------------------------------------------------------------- pay

  /** The duplicate heuristic looks at the sender's five newest transactions ... */
  const DuplicateLookback: nat := 5

  /** ... for one of the same amount created less than a minute ago. */
  const DuplicateWindow: int := 60000

  function IsRecentRepeat(amount: Cents, now: Time): Transaction -> bool {
    (t: Transaction) => t.amount == amount && now - t.createdAt < DuplicateWindow
  }

  /** Whether user `userId` has a transaction of `amount` among its newest five that is under a minute old. */
  function IsDuplicate(s: Store, userId: nat, amount: Cents, now: Time): (b: bool)
    ensures b <==> exists t :: (t in TransactionsByUserId(s, userId, Some(DuplicateLookback))
      && t.amount == amount && now - t.createdAt < DuplicateWindow)
  {
    var recent := TransactionsByUserId(s, userId, Some(DuplicateLookback));
    var found := Find(recent, IsRecentRepeat(amount, now));
    assert found.None? ==> forall t :: t in recent ==> !IsRecentRepeat(amount, now)(t);
    found.Some?
  }

  datatype PayResult =
    | SelfPayment
    | InsufficientBalance(balance: Cents)
    | DuplicateSuspected(alert: Alert)
    | Paid(transaction: Transaction, command: BotCommand)

  /**
    `handlePayCommand`: `sender` sends `amount` to `recipient`. Self-payment
    is refused before anything else; both accounts are then ensured and
    the payment goes on between the two stored accounts.
  */
  function Pay(s: Store, sender: DiscordUser, recipient: DiscordUser, amount: PositiveCents, now: Time, draw: Draw)
    : (r: (Store, PayResult))
    ensures r.0.merchants == s.merchants && r.0.nextMerchantId == s.nextMerchantId
    ensures r.1.SelfPayment? <==> sender.id == recipient.id
    ensures r.1.SelfPayment? ==> r.0 == s
    ensures r.1.InsufficientBalance? ==> r.1.balance < amount
    ensures !r.1.Paid? ==> r.0.transactions == s.transactions && r.0.commands == s.commands
    ensures r.1.Paid? ==> r.0.alerts == s.alerts
  {
    if recipient.id == sender.id then (s, SelfPayment)
    else
      var (s1, from) := EnsureUser(s, sender, now);
      var (s2, to) := EnsureUser(s1, recipient, now);
      Transfer(s2, from, to, recipient, amount, now, draw)
  }

  /**
    The rest of `handlePayCommand`, once both accounts exist: the sender's
    balance as read is checked, then the duplicate heuristic, and only
    then is the payment booked against merchant 1 and both balances set.
  */
  function Transfer(s: Store, from: User, to: User, recipient: DiscordUser, amount: PositiveCents, now: Time, draw: Draw)
    : (r: (Store, PayResult))
    ensures r.0.merchants == s.merchants && r.0.nextMerchantId == s.nextMerchantId
    ensures !r.1.SelfPayment?
    ensures r.1.InsufficientBalance? <==> from.balance < amount
    ensures r.1.InsufficientBalance? ==> r == (s, InsufficientBalance(from.balance))
    ensures !r.1.Paid? ==> r.0.transactions == s.transactions && r.0.commands == s.commands
    ensures r.1.Paid? ==> r.0.alerts == s.alerts
  {
    if from.balance < amount then (s, InsufficientBalance(from.balance))
    else if IsDuplicate(s, from.id, amount, now) then
      var (s3, a) := CreateAlert(s, DuplicateAlert(from), now);
      (s3, DuplicateSuspected(a))
    else
      var (s3, tx, c) := BookPayment(s, from, to, PayTransaction(from, recipient, amount, now, draw),
                                     PayLog(from, recipient, amount), now);
      (s3, Paid(tx, c))
  }

  /** The unread fraud warning a suspected duplicate raises, naming the sender. */
  function DuplicateAlert(from: User): (a: NewAlert)
    ensures a.kind == Fraud && a.severity == Warning && a.isRead == Some(false)
  {
    NewAlert(Fraud, "Duplicate transaction attempted by user " + from.username, Warning, Some(false))
  }

  /** The transaction a payment records: completed, of the sender, against merchant 1. */
  function PayTransaction(from: User, recipient: DiscordUser, amount: PositiveCents, now: Time, draw: Draw)
    : (nt: NewTransaction)
    ensures nt.userId == from.id && nt.merchantId == PeerMerchantId && nt.amount == amount
    ensures nt.status == Completed && nt.transactionId == TransactionId(now, draw)
  {
    NewTransaction(
      TransactionId(now, draw), from.id, PeerMerchantId, amount, Completed,
      Some("Payment to " + recipient.username))
  }

  /** The log entry of a payment: `user:<id> amount:<amount>` and the sentence sent back. */
  function PayLog(from: User, recipient: DiscordUser, amount: PositiveCents): (nc: NewBotCommand)
    ensures nc.commandName == "pay" && nc.userId == from.id
  {
    NewBotCommand(
      "pay", from.id,
      Some("user:" + recipient.id + " amount:" + FormatNumber(amount)),
      Some("Sent $" + FormatMoney(amount) + " to " + recipient.username))
  }

  /**
    The booking half of a payment the checks let through: the transaction
    is recorded, the sender's balance as read is set to itself minus the
    amount, the recipient's as read to itself plus it, and the log entry added.
  */
  function BookPayment(s: Store, from: User, to: User, nt: NewTransaction, nc: NewBotCommand, now: Time)
    : (r: (Store, Transaction, BotCommand))
    ensures r.0.merchants == s.merchants && r.0.alerts == s.alerts && r.0.nextAlertId == s.nextAlertId
    ensures r.1.userId == nt.userId && r.1.merchantId == nt.merchantId && r.1.amount == nt.amount
    ensures r.1.status == nt.status && r.1.createdAt == now && r.1.transactionId == nt.transactionId
    ensures r.2.commandName == nc.commandName && r.2.userId == nc.userId && r.2.executedAt == now
  {
    var booked := CreateTransaction(s, nt, now);
    var debited := UpdateUserBalance(booked.0, from.id, from.balance - nt.amount).0;
    var credited := UpdateUserBalance(debited, to.id, to.balance + nt.amount).0;
    var logged := CreateBotCommand(credited, nc, now);
    (logged.0, booked.1, logged.1)
  }

  // -------------------------------------------------------------- order

  datatype OrderResult =
    | UnknownMerchant
    | InactiveMerchant(merchant: Merchant)
    | BalanceTooLow(balance: Cents)
    | Ordered(transaction: Transaction, command: BotCommand)

  /** `description || "Order from " + name`: an empty description falls back too. */
  function OrderDescription(description: Option<string>, merchantName: string): (d: string)
    ensures description.Some? && description.value != "" ==> d == description.value
    ensures (description.None? || description.value == "") ==> d == "Order from " + merchantName
  {
    if description.Some? && description.value != "" then description.value else "Order from " + merchantName
  }

  /** The logged parameters; ` description:…` only for a non-empty description. */
  function OrderParameters(merchantName: string, amount: PositiveCents, description: Option<string>): string {
    "merchant:" + merchantName + " amount:" + FormatNumber(amount)
    + (if description.Some? && description.value != "" then " description:" + description.value else "")
  }

  /**
    `handleOrderCommand`: the caller's account is ensured first, then the
    merchant is looked up by name, must be active, and must be affordable;
    an order is booked pending and the caller debited at once.
  */
  function Order(
    s: Store, caller: DiscordUser, merchantName: string, amount: PositiveCents,
    description: Option<string>, now: Time, draw: Draw)
    : (r: (Store, OrderResult))
    ensures r.0.merchants == s.merchants && r.0.alerts == s.alerts
    ensures !r.1.Ordered? ==> r.0 == EnsureUser(s, caller, now).0
    ensures r.1.InactiveMerchant? ==> !r.1.merchant.isActive && r.1.merchant.name == merchantName
    ensures r.1.BalanceTooLow? ==> r.1.balance < amount
  {
    var (s1, user) := EnsureUser(s, caller, now);
    PlaceOrder(s1, user, merchantName, amount, description, now, draw)
  }

  /** The rest of `handleOrderCommand`, once the caller's account exists. */
  function PlaceOrder(
    s: Store, user: User, merchantName: string, amount: PositiveCents,
    description: Option<string>, now: Time, draw: Draw)
    : (r: (Store, OrderResult))
    ensures r.0.merchants == s.merchants && r.0.alerts == s.alerts
    ensures r.1.UnknownMerchant? <==> MerchantByName(s, merchantName).None?
    ensures r.1.InactiveMerchant? <==> MerchantByName(s, merchantName).Some? && !MerchantByName(s, merchantName).value.isActive
    ensures r.1.InactiveMerchant? ==> r.1.merchant == MerchantByName(s, merchantName).value
    ensures r.1.BalanceTooLow? <==>
      MerchantByName(s, merchantName).Some? && MerchantByName(s, merchantName).value.isActive && user.balance < amount
    ensures r.1.BalanceTooLow? ==> r.1.balance == user.balance
    ensures !r.1.Ordered? ==> r.0 == s
  {
    match MerchantByName(s, merchantName)
    case None => (s, UnknownMerchant)
    case Some(m) =>
      if !m.isActive then (s, InactiveMerchant(m))
      else if user.balance < amount then (s, BalanceTooLow(user.balance))
      else
        var nt := OrderTransaction(user, m, amount, description, now, draw);
        var (s2, tx, c) := BookOrder(s, user, nt, OrderLog(user, merchantName, amount, description, nt.transactionId), now);
        (s2, Ordered(tx, c))
  }

  /** The transaction an order records: pending, of the caller, against the merchant found. */
  function OrderTransaction(
    user: User, m: Merchant, amount: PositiveCents, description: Option<string>, now: Time, draw: Draw)
    : (nt: NewTransaction)
    ensures nt.userId == user.id && nt.merchantId == m.id && nt.amount == amount
    ensures nt.status == Pending && nt.transactionId == TransactionId(now, draw)
  {
    NewTransaction(TransactionId(now, draw), user.id, m.id, amount, Pending, Some(OrderDescription(description, m.name)))
  }

  /** The log entry of an order; it names the merchant as the caller typed it. */
  function OrderLog(
    user: User, merchantName: string, amount: PositiveCents, description: Option<string>, transactionId: string)
    : (nc: NewBotCommand)
    ensures nc.commandName == "order" && nc.userId == user.id
  {
    NewBotCommand(
      "order", user.id, Some(OrderParameters(merchantName, amount, description)),
      Some("Created order " + transactionId + " with " + merchantName))
  }

  /**
    The booking half of an order the checks let through: the transaction
    is recorded, the caller's balance as read is set to itself minus the
    amount, and the log entry added.
  */
  function BookOrder(s: Store, user: User, nt: NewTransaction, nc: NewBotCommand, now: Time)
    : (r: (Store, Transaction, BotCommand))
    ensures r.0.merchants == s.merchants && r.0.alerts == s.alerts && r.0.nextAlertId == s.nextAlertId
    ensures r.1.userId == nt.userId && r.1.merchantId == nt.merchantId && r.1.amount == nt.amount
    ensures r.1.status == nt.status && r.1.createdAt == now && r.1.transactionId == nt.transactionId
    ensures r.2.commandName == nc.commandName && r.2.userId == nc.userId && r.2.executedAt == now
  {
    var booked := CreateTransaction(s, nt, now);
    var debited := UpdateUserBalance(booked.0, user.id, user.balance - nt.amount).0;
    var logged := CreateBotCommand(debited, nc, now);
    (logged.0, booked.1, logged.1)
  }

  /**
    The body of the order's settlement timer, run some 10 to 40 seconds
    later: the transaction is marked completed, whatever its status is by then.
  */
  function Settle(s: Store, id: nat, now: Time): (t: Store)
    ensures OnlyTransactionsChanged(s, t) && t.transactions.Keys == s.transactions.Keys
    ensures forall k :: k in s.transactions && k != id ==> t.transactions[k] == s.transactions[k]
    ensures t.nextTransactionId == s.nextTransactionId
    ensures id in t.transactions ==> t.transactions[id].status == Completed && t.transactions[id].updatedAt == now
    ensures id in s.transactions ==> t.transactions[id] == s.transactions[id].(status := Completed, updatedAt := now)
  {
    UpdateTransactionStatus(s, id, Completed, now).0
  }

  // ------------------------------------------------- history, merchants

  /** `getInteger("limit") || 5`: a missing limit and a zero both mean 5. */
  const DefaultHistoryLimit: nat := 5

  function HistoryLimit(limit: Option<nat>): (n: nat)
    ensures n >= 1
    ensures limit.Some? && limit.value != 0 ==> n == limit.value
    ensures limit.None? || limit.value == 0 ==> n == DefaultHistoryLimit
  {
    if limit.Some? && limit.value != 0 then limit.value else DefaultHistoryLimit
  }

  datatype HistoryView = HistoryView(user: User, transactions: seq<Transaction>, command: BotCommand)

  /** `handleHistoryCommand`: the target (default: the caller) is ensured, listed and the lookup logged. */
  function History(s: Store, caller: DiscordUser, target: Option<DiscordUser>, limit: Option<nat>, now: Time)
    : (r: (Store, HistoryView))
    ensures r.0.transactions == s.transactions && r.0.merchants == s.merchants && r.0.alerts == s.alerts
    ensures |r.1.transactions| <= HistoryLimit(limit)
    ensures forall t :: t in r.1.transactions ==> t.userId == r.1.user.id
    ensures SortedDesc(r.1.transactions, CreatedAt)
  {
    var who := target.GetOr(caller);
    var n := HistoryLimit(limit);
    var (s1, user) := EnsureUser(s, who, now);
    var txs := TransactionsByUserId(s1, user.id, Some(n));
    var (s2, c) := CreateBotCommand(s1, HistoryLog(caller, who, user, n, |txs|), now);
    (s2, HistoryView(user, txs, c))
  }

  /**
    The log entry of a history lookup, made under the target's account:
    `user:<id> ` only when the target is not the caller, then the limit,
    and the number of transactions found.
  */
  function HistoryLog(caller: DiscordUser, who: DiscordUser, user: User, n: nat, found: nat): (nc: NewBotCommand)
    ensures nc.commandName == "history" && nc.userId == user.id
  {
    var parameters := (if who.id != caller.id then "user:" + who.id + " " else "") + "limit:" + NatToString(n);
    NewBotCommand("history", user.id, Some(parameters), Some("Found " + NatToString(found) + " transaction"))
  }

  function IsActive(m: Merchant): bool { m.isActive }

  /** `handleMerchantsCommand`: the active merchants in id order; the caller is ensured and the listing logged. */
  function ListMerchants(s: Store, caller: DiscordUser, now: Time): (r: (Store, seq<Merchant>))
    ensures r.0.transactions == s.transactions && r.0.merchants == s.merchants && r.0.alerts == s.alerts
    ensures forall m :: m in r.1 <==> m in AllMerchants(s) && m.isActive
  {
    var active := Filter(AllMerchants(s), IsActive);
    var (s1, user) := EnsureUser(s, caller, now);
    var nc := NewBotCommand("merchants", user.id, None, Some("Listed " + NatToString(|active|) + " merchants"));
    var (s2, _) := CreateBotCommand(s1, nc, now);
    (s2, active)
  }
}
