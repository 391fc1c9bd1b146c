/**
  What the handlers promise about the ledger: account opening, the
  conservation of money across a payment, what each rejection leaves
  untouched, the bookings of a payment and an order, and settlement.
*/
module BotProofs {
  import opened Options
  import opened Seqs
  import opened Schema
  import opened Storage
  import opened Views
  import opened Digits
  import opened Bot

  function Balance(u: User): int { u.balance }

  /** All the money held in accounts. */
  function TotalBalance(s: Store): int {
    SumOf(AllUsers(s), Balance)
  }

  ghost predicate NonNegativeBalances(s: Store) {
    forall i :: i in s.users ==> s.users[i].balance >= 0
  }

  /**
    `t` differs from `s` at most by newly opened accounts, each holding
    the starting balance: every other table and every existing account is as it was.
  */
  ghost predicate OnlyAccountsOpened(s: Store, t: Store) {
    && OnlyUsersChanged(s, t)
    && (forall i :: i in s.users ==> i in t.users && t.users[i] == s.users[i])
    && (forall i :: i in t.users && i !in s.users ==> t.users[i].balance == StartingBalance)
  }

  lemma OnlyAccountsOpenedTrans(s: Store, t: Store, u: Store)
    requires OnlyAccountsOpened(s, t) && OnlyAccountsOpened(t, u)
    ensures OnlyAccountsOpened(s, u)
  {
  }

  // ----------------------------------------------------------- helpers

  /** In a valid store the lookup by Discord id finds the one account carrying it. */
  lemma LookupAt(s: Store, who: DiscordUser, id: nat)
    requires Valid(s) && id in s.users && s.users[id].discordId == who.id
    ensures UserByDiscordId(s, who.id) == Some(s.users[id])
    ensures BalanceOf(s, who) == s.users[id].balance
  {
    UserByDiscordIdSpec(s, who.id);
  }

  /** Setting one balance moves the total by the difference. */
  lemma SetBalanceTotal(s: Store, id: nat, b: Cents)
    requires UsersKeyed(s) && id in s.users
    ensures TotalBalance(UpdateUserBalance(s, id, b).0) == TotalBalance(s) - s.users[id].balance + b
  {
    UpdateUserBalanceColumn(s, id, b);
    SumUpdate(AllUsers(s), id - 1, s.users[id].(balance := b), Balance);
  }

  lemma AppendUserTotal(s: Store, t: Store, u: User)
    requires AllUsers(t) == AllUsers(s) + [u]
    ensures TotalBalance(t) == TotalBalance(s) + u.balance
  {
    SumAppend(AllUsers(s), [u], Balance);
    assert [u][..0] == [];
  }

  // -------------------------------------------------------- ensureUser

  /**
    `ensureUser` returns the stored account unchanged when the Discord id
    is known; otherwise it opens one with the starting balance and the
    given username. Either way the account is stored, is what the next
    lookup finds, and the total held grows by the starting balance per
    opened account.
  */
  lemma EnsureUserSpec(s: Store, who: DiscordUser, now: Time)
    requires Valid(s)
    ensures var r := EnsureUser(s, who, now);
      && Valid(r.0) && OnlyAccountsOpened(s, r.0)
      && r.1.id in r.0.users && r.0.users[r.1.id] == r.1
      && r.1.balance == BalanceOf(s, who)
      && UserByDiscordId(r.0, who.id) == Some(r.1)
      && (UserByDiscordId(s, who.id).Some? ==> r.0 == s)
      && (UserByDiscordId(s, who.id).None? ==>
            && r.1.id == s.nextUserId && r.0.users == s.users[s.nextUserId := r.1]
            && r.1.username == who.username && r.1.balance == StartingBalance)
      && TotalBalance(r.0) == TotalBalance(s) + StartingBalance * (r.0.nextUserId - s.nextUserId)
  {
    var r := EnsureUser(s, who, now);
    EnsureUserValid(s, who, now);
    EnsureUserTotal(s, who, now);
    UserByDiscordIdSpec(s, who.id);
    if UserByDiscordId(s, who.id).None? {
      LookupAt(r.0, who, r.1.id);
    }
  }

  /** Opening an account adds the starting balance to the total held. */
  lemma EnsureUserTotal(s: Store, who: DiscordUser, now: Time)
    requires Valid(s)
    ensures var t := EnsureUser(s, who, now).0;
      TotalBalance(t) == TotalBalance(s) + StartingBalance * (t.nextUserId - s.nextUserId)
  {
    var r := EnsureUser(s, who, now);
    if UserByDiscordId(s, who.id).None? {
      ColumnSnoc(s.users, s.nextUserId, r.1);
      AppendUserTotal(s, r.0, r.1);
    }
  }

  /** `ensureUser` keeps the store valid and changes nothing but the opened account. */
  lemma EnsureUserValid(s: Store, who: DiscordUser, now: Time)
    requires Valid(s)
    ensures var r := EnsureUser(s, who, now);
      Valid(r.0) && OnlyAccountsOpened(s, r.0)
  {
    UserByDiscordIdSpec(s, who.id);
    if UserByDiscordId(s, who.id).None? {
      CreateUserValid(s, NewUser(who.id, who.username, Some(StartingBalance)), now);
    }
  }

  /** Two different Discord ids never share an account. */
  lemma EnsureUsersDistinct(s: Store, a: DiscordUser, b: DiscordUser, now: Time)
    requires Valid(s) && a.id != b.id
    ensures var (s1, x) := EnsureUser(s, a, now);
      var (s2, y) := EnsureUser(s1, b, now);
      && Valid(s2) && OnlyAccountsOpened(s, s2)
      && x.id != y.id && x.id in s2.users && s2.users[x.id] == x && y.id in s2.users && s2.users[y.id] == y
      && x.balance == BalanceOf(s, a) && y.balance == BalanceOf(s, b)
      && x.discordId == a.id && y.discordId == b.id
  {
    var (s1, x) := EnsureUser(s, a, now);
    var (s2, y) := EnsureUser(s1, b, now);
    EnsureUserSpec(s, a, now);
    EnsureUserSpec(s1, b, now);
    OnlyAccountsOpenedTrans(s, s1, s2);
    UserByDiscordIdSpec(s1, b.id);
    UserByDiscordIdSpec(s, b.id);
  }

  /** Ensuring two accounts adds the starting balance once per account opened. */
  lemma EnsureUsersTotal(s: Store, a: DiscordUser, b: DiscordUser, now: Time)
    requires Valid(s)
    ensures var (s1, _) := EnsureUser(s, a, now);
      var (s2, _) := EnsureUser(s1, b, now);
      TotalBalance(s2) == TotalBalance(s) + StartingBalance * (s2.nextUserId - s.nextUserId)
  {
    EnsureUserSpec(s, a, now);
    EnsureUserSpec(EnsureUser(s, a, now).0, b, now);
  }

  // --------------------------------------------------------------- pay

  /** Whether the sender, as stored, has a recent payment or order of `amount` among its newest five. */
  function RecentRepeat(s: Store, sender: DiscordUser, amount: Cents, now: Time): bool {
    match UserByDiscordId(s, sender.id)
    case Some(u) => IsDuplicate(s, u.id, amount, now)
    case None => false
  }

  /** An account opened by the handler has no transactions yet, so it cannot repeat one. */
  lemma FreshUserHasNoTransactions(s: Store, id: nat, limit: Option<nat>)
    requires Valid(s) && id !in s.users
    ensures TransactionsByUserId(s, id, limit) == []
  {
    ColumnMembers(s.transactions, s.nextTransactionId);
    FilterNone(AllTransactions(s), OfUser(id));
  }

  /** A transaction of `userId` that a payment of `amount` at `now` would repeat. */
  ghost predicate RepeatStored(s: Store, userId: nat, amount: Cents, now: Time) {
    exists t :: t in AllTransactions(s) && t.userId == userId && t.amount == amount && now - t.createdAt < DuplicateWindow
  }

  /** A payment is only suspected when the store holds a repeat of it under that user. */
  lemma IsDuplicateSound(s: Store, userId: nat, amount: Cents, now: Time)
    ensures IsDuplicate(s, userId, amount, now) ==> RepeatStored(s, userId, amount, now)
  {
  }

  /**
    While the user has at most five transactions, every one of them is
    looked at: the payment is suspected exactly when the store holds a
    repeat of it under that user.
  */
  lemma IsDuplicateExact(s: Store, userId: nat, amount: Cents, now: Time)
    ensures |Filter(AllTransactions(s), OfUser(userId))| <= DuplicateLookback ==>
      (IsDuplicate(s, userId, amount, now) <==> RepeatStored(s, userId, amount, now))
  {
    var mine := Filter(AllTransactions(s), OfUser(userId));
    if |mine| <= DuplicateLookback {
      NewestFirstKeepsNewest(mine, DuplicateLookback);
      var r := TransactionsByUserId(s, userId, Some(DuplicateLookback));
      assert multiset(r) == multiset(mine);
      if RepeatStored(s, userId, amount, now) {
        var t :| t in AllTransactions(s) && t.userId == userId && t.amount == amount && now - t.createdAt < DuplicateWindow;
        FilterMultiset(AllTransactions(s), OfUser(userId), t);
        assert multiset(r)[t] > 0;
        assert t in r;
      }
    }
  }

  /** The duplicate check run by the handler is the one on the store it was given. */
  lemma DuplicateCheckOnInput(s: Store, sender: DiscordUser, recipient: DiscordUser, amount: Cents, now: Time)
    requires Valid(s) && sender.id != recipient.id
    ensures var (s1, from) := EnsureUser(s, sender, now);
      var (s2, _) := EnsureUser(s1, recipient, now);
      IsDuplicate(s2, from.id, amount, now) == RecentRepeat(s, sender, amount, now)
  {
    var (s1, from) := EnsureUser(s, sender, now);
    var (s2, _) := EnsureUser(s1, recipient, now);
    EnsureUserSpec(s, sender, now);
    EnsureUserSpec(s1, recipient, now);
    assert AllTransactions(s2) == AllTransactions(s);
    assert TransactionsByUserId(s2, from.id, Some(DuplicateLookback))
      == TransactionsByUserId(s, from.id, Some(DuplicateLookback));
    if UserByDiscordId(s, sender.id).None? {
      FreshUserHasNoTransactions(s, from.id, Some(DuplicateLookback));
    }
  }

  /**
    Paying oneself is refused before any account is opened: the store is
    returned as it was. (The same Discord id on both sides is the only
    self-payment the handler recognises.)
  */
  lemma PaySelfChangesNothing(s: Store, who: DiscordUser, amount: PositiveCents, now: Time, draw: Draw)
    ensures Pay(s, who, who, amount, now, draw) == (s, SelfPayment)
  {
  }

  /**
    A payment the sender cannot cover is refused exactly when the balance
    it would see is below the amount, so paying one's whole balance goes
    through this check. A refused payment opens at most the two accounts
    and changes nothing else: no transaction, balance, alert or log entry.
  */
  lemma PayInsufficientChangesNothing(
    s: Store, sender: DiscordUser, recipient: DiscordUser, amount: PositiveCents, now: Time, draw: Draw)
    requires Valid(s)
    ensures var r := Pay(s, sender, recipient, amount, now, draw);
      && (r.1.InsufficientBalance? <==> sender.id != recipient.id && BalanceOf(s, sender) < amount)
      && (r.1.InsufficientBalance? ==> Valid(r.0) && OnlyAccountsOpened(s, r.0) && r.1.balance == BalanceOf(s, sender))
  {
    if sender.id != recipient.id {
      EnsureUsersDistinct(s, sender, recipient, now);
    }
  }

  /**
    The duplicate heuristic refuses a covered payment exactly when the
    sender's five newest transactions hold one of the same amount under a
    minute old. Its only effect beyond opening accounts is one unread
    fraud alert of warning severity naming the sender.
  */
  lemma PayDuplicateOnlyAlerts(
    s: Store, sender: DiscordUser, recipient: DiscordUser, amount: PositiveCents, now: Time, draw: Draw)
    requires Valid(s)
    ensures var r := Pay(s, sender, recipient, amount, now, draw);
      && (r.1.DuplicateSuspected? <==>
            sender.id != recipient.id && BalanceOf(s, sender) >= amount && RecentRepeat(s, sender, amount, now))
      && (r.1.DuplicateSuspected? ==>
            && Valid(r.0)
            && OnlyAccountsOpened(s, r.0.(alerts := s.alerts, nextAlertId := s.nextAlertId))
            && r.0.alerts == s.alerts[s.nextAlertId := r.1.alert] && r.0.nextAlertId == s.nextAlertId + 1
            && r.1.alert.kind == Fraud && r.1.alert.severity == Warning && !r.1.alert.isRead
            && r.1.alert.createdAt == now && r.1.alert.id == s.nextAlertId)
  {
    if sender.id != recipient.id {
      var (s1, from) := EnsureUser(s, sender, now);
      var (s2, to) := EnsureUser(s1, recipient, now);
      EnsureUsersDistinct(s, sender, recipient, now);
      DuplicateCheckOnInput(s, sender, recipient, amount, now);
      CreateAlertWellFormed(s2, DuplicateAlert(from), now);
    }
  }

  /**
    A booking (one transaction and one log entry appended, balances
    changed in place) keeps the store well formed when both refer to
    stored rows.
  */
  lemma BookingWellFormed(s: Store, t: Store, tx: Transaction, c: BotCommand)
    requires WellFormed(s)
    requires tx.id == s.nextTransactionId && tx.userId in s.users && tx.merchantId in s.merchants
    requires c.id == s.nextCommandId && c.userId in s.users
    requires t == s.(users := t.users,
                     transactions := s.transactions[tx.id := tx], nextTransactionId := tx.id + 1,
                     commands := s.commands[c.id := c], nextCommandId := c.id + 1)
    requires t.users.Keys == s.users.Keys && forall i :: i in s.users ==> t.users[i].id == i
    ensures WellFormed(t)
  {
  }

  /** Booking a payment appends one transaction and one log entry and keeps every account key. */
  lemma BookPaymentRecords(s: Store, from: User, to: User, nt: NewTransaction, nc: NewBotCommand, now: Time)
    ensures var r := BookPayment(s, from, to, nt, nc, now);
      && r.0.transactions == s.transactions[s.nextTransactionId := r.1] && r.0.nextTransactionId == s.nextTransactionId + 1
      && r.1.id == s.nextTransactionId && r.1.description == OrNull(nt.description)
      && r.0.commands == s.commands[s.nextCommandId := r.2] && r.0.nextCommandId == s.nextCommandId + 1
      && r.2.id == s.nextCommandId
      && r.0 == s.(users := r.0.users,
                   transactions := r.0.transactions, nextTransactionId := r.0.nextTransactionId,
                   commands := r.0.commands, nextCommandId := r.0.nextCommandId)
      && r.0.users.Keys == s.users.Keys
      && (forall i :: i in s.users ==> r.0.users[i].id == s.users[i].id && r.0.users[i].discordId == s.users[i].discordId)
  {
  }

  /** Booking a payment between stored accounts keeps the store well formed. */
  lemma BookPaymentWellFormed(s: Store, from: User, to: User, nt: NewTransaction, nc: NewBotCommand, now: Time)
    requires WellFormed(s)
    requires nt.userId in s.users && nt.merchantId in s.merchants && nc.userId in s.users
    ensures WellFormed(BookPayment(s, from, to, nt, nc, now).0)
  {
    var r := BookPayment(s, from, to, nt, nc, now);
    BookPaymentRecords(s, from, to, nt, nc, now);
    BookingWellFormed(s, r.0, r.1, r.2);
  }

  /** Booking a payment between stored accounts keeps a valid store valid. */
  lemma BookPaymentKeepsValid(s: Store, from: User, to: User, nt: NewTransaction, nc: NewBotCommand, now: Time)
    requires Valid(s)
    requires nt.userId in s.users && nt.merchantId in s.merchants && nc.userId in s.users
    ensures Valid(BookPayment(s, from, to, nt, nc, now).0)
  {
    BookPaymentWellFormed(s, from, to, nt, nc, now);
    BookPaymentRecords(s, from, to, nt, nc, now);
    SameDiscordIds(s, BookPayment(s, from, to, nt, nc, now).0);
  }

  /**
    Booking a payment between two stored accounts moves exactly the
    amount from one to the other and touches no other account.
  */
  lemma BookPaymentMovesAmount(s: Store, from: User, to: User, nt: NewTransaction, nc: NewBotCommand, now: Time)
    requires from.id != to.id
    requires from.id in s.users && s.users[from.id] == from && to.id in s.users && s.users[to.id] == to
    ensures var r := BookPayment(s, from, to, nt, nc, now);
      && r.0.users == s.users[from.id := from.(balance := from.balance - nt.amount)]
                             [to.id := to.(balance := to.balance + nt.amount)]
      && r.0.nextUserId == s.nextUserId
  {
  }

  /** Setting two different balances moves the total by both differences. */
  lemma TwoBalancesTotal(s: Store, a: nat, x: Cents, b: nat, y: Cents)
    requires UsersKeyed(s) && a in s.users && b in s.users && a != b
    ensures TotalBalance(s.(users := s.users[a := s.users[a].(balance := x)][b := s.users[b].(balance := y)]))
         == TotalBalance(s) - s.users[a].balance + x - s.users[b].balance + y
  {
    var s1 := UpdateUserBalance(s, a, x).0;
    SetBalanceTotal(s, a, x);
    assert UsersKeyed(s1);
    SetBalanceTotal(s1, b, y);
    assert UpdateUserBalance(s1, b, y).0 == s.(users := s.users[a := s.users[a].(balance := x)][b := s.users[b].(balance := y)]);
  }

  /** Booking a payment leaves the total held unchanged. */
  lemma BookPaymentKeepsTotal(s: Store, from: User, to: User, nt: NewTransaction, nc: NewBotCommand, now: Time)
    requires UsersKeyed(s) && from.id != to.id
    requires from.id in s.users && s.users[from.id] == from && to.id in s.users && s.users[to.id] == to
    ensures TotalBalance(BookPayment(s, from, to, nt, nc, now).0) == TotalBalance(s)
  {
    var r := BookPayment(s, from, to, nt, nc, now);
    BookPaymentMovesAmount(s, from, to, nt, nc, now);
    TwoBalancesTotal(s, from.id, from.balance - nt.amount, to.id, to.balance + nt.amount);
    assert AllUsers(r.0) == AllUsers(s.(users := r.0.users));
  }

  // -------------------------------------------- between stored accounts

  /** `u` is the row stored under its own id. */
  ghost predicate Stored(s: Store, u: User) {
    u.id in s.users && s.users[u.id] == u
  }

  /** A transfer that goes through appends its transaction and log entry and raises no alert. */
  lemma TransferRecords(s: Store, from: User, to: User, recipient: DiscordUser, amount: PositiveCents, now: Time, draw: Draw)
    ensures var r := Transfer(s, from, to, recipient, amount, now, draw);
      r.1.Paid? ==>
        var tx := r.1.transaction;
        && r.0.transactions == s.transactions[s.nextTransactionId := tx]
        && r.0.nextTransactionId == s.nextTransactionId + 1
        && tx.id == s.nextTransactionId && tx.status == Completed && tx.merchantId == PeerMerchantId
        && tx.amount == amount && tx.createdAt == now && tx.transactionId == TransactionId(now, draw)
        && tx.userId == from.id && tx.description == Some("Payment to " + recipient.username)
        && r.0.commands == s.commands[s.nextCommandId := r.1.command]
        && r.0.nextCommandId == s.nextCommandId + 1
        && r.1.command.commandName == "pay" && r.1.command.userId == from.id
        && r.0.alerts == s.alerts && r.0.nextAlertId == s.nextAlertId
  {
    var nt := PayTransaction(from, recipient, amount, now, draw);
    assert OrNull(nt.description) == nt.description by {
      assert ("Payment to " + recipient.username)[0] == 'P';
    }
    BookPaymentRecords(s, from, to, nt, PayLog(from, recipient, amount), now);
  }

  /**
    Between two different stored accounts a transfer either leaves the
    accounts as they were or moves exactly the amount from the sender to
    the recipient; either way the total held is unchanged.
  */
  lemma TransferMovesAmount(s: Store, from: User, to: User, recipient: DiscordUser, amount: PositiveCents, now: Time, draw: Draw)
    requires UsersKeyed(s) && Stored(s, from) && Stored(s, to) && from.id != to.id
    ensures var r := Transfer(s, from, to, recipient, amount, now, draw);
      && r.0.nextUserId == s.nextUserId
      && (r.1.Paid? ==> r.0.users == s.users[from.id := from.(balance := from.balance - amount)]
                                            [to.id := to.(balance := to.balance + amount)])
      && (!r.1.Paid? ==> r.0.users == s.users)
  {
    var r := Transfer(s, from, to, recipient, amount, now, draw);
    if from.balance >= amount && !IsDuplicate(s, from.id, amount, now) {
      var nt := PayTransaction(from, recipient, amount, now, draw);
      var nc := PayLog(from, recipient, amount);
      TransferBooks(s, from, to, recipient, amount, now, draw);
      BookPaymentMovesAmount(s, from, to, nt, nc, now);
      assert nt.amount == amount;
      assert from.(balance := from.balance - nt.amount) == from.(balance := from.balance - amount);
      assert to.(balance := to.balance + nt.amount) == to.(balance := to.balance + amount);
    } else {
      TransferRefusedKeepsUsers(s, from, to, recipient, amount, now, draw);
    }
  }

  /** A refused transfer opens and changes no account. */
  lemma TransferRefusedKeepsUsers(s: Store, from: User, to: User, recipient: DiscordUser, amount: PositiveCents, now: Time, draw: Draw)
    requires from.balance < amount || IsDuplicate(s, from.id, amount, now)
    ensures var r := Transfer(s, from, to, recipient, amount, now, draw);
      !r.1.Paid? && r.0.users == s.users && r.0.nextUserId == s.nextUserId
  {
  }

  /** A transfer that is affordable and not a suspected duplicate is booked. */
  lemma TransferBooks(s: Store, from: User, to: User, recipient: DiscordUser, amount: PositiveCents, now: Time, draw: Draw)
    ensures var r := Transfer(s, from, to, recipient, amount, now, draw);
      from.balance >= amount && !IsDuplicate(s, from.id, amount, now) ==>
      && r.1.Paid?
      && r.0 == BookPayment(s, from, to, PayTransaction(from, recipient, amount, now, draw), PayLog(from, recipient, amount), now).0
  {
  }

  /** Between two different stored accounts a transfer leaves the total held unchanged. */
  lemma TransferKeepsTotal(s: Store, from: User, to: User, recipient: DiscordUser, amount: PositiveCents, now: Time, draw: Draw)
    requires UsersKeyed(s) && Stored(s, from) && Stored(s, to) && from.id != to.id
    ensures var t := Transfer(s, from, to, recipient, amount, now, draw).0;
      TotalBalance(t) == TotalBalance(s) && t.nextUserId == s.nextUserId
  {
    var r := Transfer(s, from, to, recipient, amount, now, draw);
    if from.balance >= amount && !IsDuplicate(s, from.id, amount, now) {
      var nt := PayTransaction(from, recipient, amount, now, draw);
      var nc := PayLog(from, recipient, amount);
      assert r.0 == BookPayment(s, from, to, nt, nc, now).0;
      BookPaymentKeepsTotal(s, from, to, nt, nc, now);
      BookPaymentMovesAmount(s, from, to, nt, nc, now);
    } else {
      assert AllUsers(r.0) == AllUsers(s);
    }
  }

  /** Between two different stored accounts a transfer keeps a valid store valid. */
  lemma TransferKeepsValid(s: Store, from: User, to: User, recipient: DiscordUser, amount: PositiveCents, now: Time, draw: Draw)
    requires Valid(s) && Stored(s, from) && Stored(s, to)
    ensures Valid(Transfer(s, from, to, recipient, amount, now, draw).0)
  {
    var r := Transfer(s, from, to, recipient, amount, now, draw);
    if r.1.Paid? {
      var nt := PayTransaction(from, recipient, amount, now, draw);
      var nc := PayLog(from, recipient, amount);
      assert r.0 == BookPayment(s, from, to, nt, nc, now).0;
      BookPaymentKeepsValid(s, from, to, nt, nc, now);
    } else if r.1.DuplicateSuspected? {
      CreateAlertWellFormed(s, DuplicateAlert(from), now);
    }
  }

  /** A transfer touches no account but the two parties'. */
  lemma TransferLeavesOthersAlone(s: Store, from: User, to: User, recipient: DiscordUser, amount: PositiveCents, now: Time, draw: Draw)
    requires UsersKeyed(s) && Stored(s, from) && Stored(s, to) && from.id != to.id
    ensures var t := Transfer(s, from, to, recipient, amount, now, draw).0;
      forall i :: i in s.users && i != from.id && i != to.id ==> i in t.users && t.users[i] == s.users[i]
  {
    TransferMovesAmount(s, from, to, recipient, amount, now, draw);
  }

  /** A transfer only debits a sender who covers the amount, so no balance drops below zero. */
  lemma TransferKeepsBalancesNonNegative(s: Store, from: User, to: User, recipient: DiscordUser, amount: PositiveCents, now: Time, draw: Draw)
    requires UsersKeyed(s) && Stored(s, from) && Stored(s, to) && from.id != to.id
    requires NonNegativeBalances(s)
    ensures NonNegativeBalances(Transfer(s, from, to, recipient, amount, now, draw).0)
  {
    TransferMovesAmount(s, from, to, recipient, amount, now, draw);
  }

  // --------------------------------------------------- pay, end to end

  /**
    A payment goes through exactly when the sender is not the recipient,
    covers the amount, and has no recent repeat.
  */
  lemma PayGoesThrough(
    s: Store, sender: DiscordUser, recipient: DiscordUser, amount: PositiveCents, now: Time, draw: Draw)
    requires Valid(s)
    ensures Pay(s, sender, recipient, amount, now, draw).1.Paid? <==>
      sender.id != recipient.id && BalanceOf(s, sender) >= amount && !RecentRepeat(s, sender, amount, now)
  {
    if sender.id != recipient.id {
      EnsureUsersDistinct(s, sender, recipient, now);
      DuplicateCheckOnInput(s, sender, recipient, amount, now);
    }
  }

  /**
    A payment that goes through records one completed transaction of the
    sender against merchant 1 and one log entry, and raises no alert.
  */
  lemma PayBooksPayment(
    s: Store, sender: DiscordUser, recipient: DiscordUser, amount: PositiveCents, now: Time, draw: Draw)
    requires Valid(s)
    ensures var r := Pay(s, sender, recipient, amount, now, draw);
      r.1.Paid? ==>
        var tx := r.1.transaction;
        && r.0.transactions == s.transactions[s.nextTransactionId := tx]
        && r.0.nextTransactionId == s.nextTransactionId + 1
        && tx.id == s.nextTransactionId && tx.status == Completed && tx.merchantId == PeerMerchantId
        && tx.amount == amount && tx.createdAt == now && tx.transactionId == TransactionId(now, draw)
        && tx.userId in r.0.users && r.0.users[tx.userId].discordId == sender.id
        && tx.description == Some("Payment to " + recipient.username)
        && r.0.commands == s.commands[s.nextCommandId := r.1.command]
        && r.0.nextCommandId == s.nextCommandId + 1
        && r.1.command.commandName == "pay" && r.1.command.userId == tx.userId
        && r.0.alerts == s.alerts && r.0.nextAlertId == s.nextAlertId
  {
    if sender.id != recipient.id {
      var (s1, from) := EnsureUser(s, sender, now);
      var (s2, to) := EnsureUser(s1, recipient, now);
      EnsureUsersDistinct(s, sender, recipient, now);
      TransferRecords(s2, from, to, recipient, amount, now, draw);
      TransferMovesAmount(s2, from, to, recipient, amount, now, draw);
    }
  }

  /** Whatever the outcome, a payment leaves a valid store valid. */
  lemma PayKeepsValid(
    s: Store, sender: DiscordUser, recipient: DiscordUser, amount: PositiveCents, now: Time, draw: Draw)
    requires Valid(s)
    ensures Valid(Pay(s, sender, recipient, amount, now, draw).0)
  {
    if sender.id != recipient.id {
      var (s1, from) := EnsureUser(s, sender, now);
      var (s2, to) := EnsureUser(s1, recipient, now);
      EnsureUsersDistinct(s, sender, recipient, now);
      TransferKeepsValid(s2, from, to, recipient, amount, now, draw);
    }
  }

  /**
    Conservation: whatever the outcome, the money held changes only by
    the starting balance of each account opened.
  */
  lemma PayConservesMoney(
    s: Store, sender: DiscordUser, recipient: DiscordUser, amount: PositiveCents, now: Time, draw: Draw)
    requires Valid(s)
    ensures var r := Pay(s, sender, recipient, amount, now, draw);
      TotalBalance(r.0) == TotalBalance(s) + StartingBalance * (r.0.nextUserId - s.nextUserId)
  {
    if sender.id != recipient.id {
      var (s1, from) := EnsureUser(s, sender, now);
      var (s2, to) := EnsureUser(s1, recipient, now);
      EnsureUsersDistinct(s, sender, recipient, now);
      EnsureUsersTotal(s, sender, recipient, now);
      TransferKeepsTotal(s2, from, to, recipient, amount, now, draw);
    }
  }

  /**
    A payment that goes through debits the sender and credits the
    recipient by the same amount.
  */
  lemma PayMovesAmount(
    s: Store, sender: DiscordUser, recipient: DiscordUser, amount: PositiveCents, now: Time, draw: Draw)
    requires Valid(s)
    ensures var r := Pay(s, sender, recipient, amount, now, draw);
      r.1.Paid? ==>
        && BalanceOf(r.0, sender) == BalanceOf(s, sender) - amount
        && BalanceOf(r.0, recipient) == BalanceOf(s, recipient) + amount
  {
    if sender.id != recipient.id {
      var (s1, from) := EnsureUser(s, sender, now);
      var (s2, to) := EnsureUser(s1, recipient, now);
      var t := Transfer(s2, from, to, recipient, amount, now, draw).0;
      EnsureUsersDistinct(s, sender, recipient, now);
      TransferMovesAmount(s2, from, to, recipient, amount, now, draw);
      TransferKeepsValid(s2, from, to, recipient, amount, now, draw);
      if t.users != s2.users {
        LookupAt(t, sender, from.id);
        LookupAt(t, recipient, to.id);
      }
    }
  }

  /** A payment leaves every account of a third party as it was. */
  lemma PayLeavesOthersAlone(
    s: Store, sender: DiscordUser, recipient: DiscordUser, amount: PositiveCents, now: Time, draw: Draw)
    requires Valid(s)
    ensures var r := Pay(s, sender, recipient, amount, now, draw);
      forall i :: i in s.users && s.users[i].discordId != sender.id && s.users[i].discordId != recipient.id
        ==> i in r.0.users && r.0.users[i] == s.users[i]
  {
    if sender.id != recipient.id {
      var (s1, from) := EnsureUser(s, sender, now);
      var (s2, to) := EnsureUser(s1, recipient, now);
      var t := Transfer(s2, from, to, recipient, amount, now, draw).0;
      EnsureUsersDistinct(s, sender, recipient, now);
      TransferLeavesOthersAlone(s2, from, to, recipient, amount, now, draw);
      forall i | i in s.users && s.users[i].discordId != sender.id && s.users[i].discordId != recipient.id
        ensures i in t.users && t.users[i] == s.users[i]
      {
        assert s2.users[i] == s.users[i];
        assert i != from.id && i != to.id;
      }
    }
  }

  /** A payment never leaves an account below zero that was not already. */
  lemma PayKeepsBalancesNonNegative(
    s: Store, sender: DiscordUser, recipient: DiscordUser, amount: PositiveCents, now: Time, draw: Draw)
    requires Valid(s) && NonNegativeBalances(s)
    ensures NonNegativeBalances(Pay(s, sender, recipient, amount, now, draw).0)
  {
    if sender.id != recipient.id {
      var (s1, from) := EnsureUser(s, sender, now);
      var (s2, to) := EnsureUser(s1, recipient, now);
      EnsureUsersDistinct(s, sender, recipient, now);
      assert NonNegativeBalances(s2);
      TransferKeepsBalancesNonNegative(s2, from, to, recipient, amount, now, draw);
    }
  }
}
