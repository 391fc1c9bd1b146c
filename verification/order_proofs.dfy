/**
  What `handleOrderCommand` promises: which orders are refused and that a
  refusal only opens the caller's account, what an order books, and that
  the caller is debited at once while the order is still pending.
*/
module OrderProofs {
  import opened Options
  import opened Seqs
  import opened Schema
  import opened Storage
  import opened Views
  import opened Digits
  import opened Bot
  import opened BotProofs

  // ----------------------------------------------------------- booking

  /** Booking an order appends one transaction and one log entry and keeps every account key. */
  lemma BookOrderRecords(s: Store, user: User, nt: NewTransaction, nc: NewBotCommand, now: Time)
    ensures var r := BookOrder(s, user, nt, nc, now);
      && r.0.transactions == s.transactions[s.nextTransactionId := r.1] && r.0.nextTransactionId == s.nextTransactionId + 1
      && r.1.id == s.nextTransactionId && r.1.description == OrNull(nt.description)
      && r.0.commands == s.commands[s.nextCommandId := r.2] && r.0.nextCommandId == s.nextCommandId + 1
      && r.2.id == s.nextCommandId && r.2.response == OrNull(nc.response)
      && r.0 == s.(users := r.0.users,
                   transactions := r.0.transactions, nextTransactionId := r.0.nextTransactionId,
                   commands := r.0.commands, nextCommandId := r.0.nextCommandId)
      && r.0.users.Keys == s.users.Keys
      && (forall i :: i in s.users ==> r.0.users[i].id == s.users[i].id && r.0.users[i].discordId == s.users[i].discordId)
  {
  }

  /** Booking an order against stored rows keeps the store well formed. */
  lemma BookOrderWellFormed(s: Store, user: User, nt: NewTransaction, nc: NewBotCommand, now: Time)
    requires WellFormed(s)
    requires nt.userId in s.users && nt.merchantId in s.merchants && nc.userId in s.users
    ensures WellFormed(BookOrder(s, user, nt, nc, now).0)
  {
    var r := BookOrder(s, user, nt, nc, now);
    BookOrderRecords(s, user, nt, nc, now);
    BookingWellFormed(s, r.0, r.1, r.2);
  }

  /** Booking an order sets the caller's balance as read minus the amount, and no other. */
  lemma BookOrderDebits(s: Store, user: User, nt: NewTransaction, nc: NewBotCommand, now: Time)
    requires Stored(s, user)
    ensures var r := BookOrder(s, user, nt, nc, now);
      && r.0.users == s.users[user.id := user.(balance := user.balance - nt.amount)]
      && r.0.nextUserId == s.nextUserId
  {
  }

  /** Booking an order takes the amount out of the money held. */
  lemma BookOrderTotal(s: Store, user: User, nt: NewTransaction, nc: NewBotCommand, now: Time)
    requires UsersKeyed(s) && Stored(s, user)
    ensures TotalBalance(BookOrder(s, user, nt, nc, now).0) == TotalBalance(s) - nt.amount
  {
    var r := BookOrder(s, user, nt, nc, now);
    BookOrderDebits(s, user, nt, nc, now);
    SetBalanceTotal(s, user.id, user.balance - nt.amount);
    assert AllUsers(r.0) == AllUsers(UpdateUserBalance(s, user.id, user.balance - nt.amount).0);
  }

  // ------------------------------------------- once the account exists

  /** The description an order records is never empty, so it is stored as given. */
  lemma OrderDescriptionKept(description: Option<string>, name: string)
    ensures OrNull(Some(OrderDescription(description, name))) == Some(OrderDescription(description, name))
  {
    if !(description.Some? && description.value != "") {
      assert ("Order from " + name)[0] == 'O';
    }
  }

  /**
    An order that goes through records one pending transaction of the
    caller against the first merchant of that name, for the amount and
    with the description or its fallback, and one log entry whose reply
    names the merchant as typed.
  */
  lemma PlaceOrderRecords(
    s: Store, user: User, merchantName: string, amount: PositiveCents,
    description: Option<string>, now: Time, draw: Draw)
    ensures var r := PlaceOrder(s, user, merchantName, amount, description, now, draw);
      r.1.Ordered? ==>
        var tx := r.1.transaction;
        var m := MerchantByName(s, merchantName).value;
        && r.0.transactions == s.transactions[s.nextTransactionId := tx]
        && r.0.nextTransactionId == s.nextTransactionId + 1
        && tx.id == s.nextTransactionId && tx.status == Pending && tx.userId == user.id
        && tx.merchantId == m.id && tx.amount == amount && tx.createdAt == now
        && tx.transactionId == TransactionId(now, draw)
        && tx.description == Some(OrderDescription(description, m.name))
        && r.0.commands == s.commands[s.nextCommandId := r.1.command]
        && r.0.nextCommandId == s.nextCommandId + 1
        && r.1.command.commandName == "order" && r.1.command.userId == user.id
        && r.1.command.response == Some("Created order " + tx.transactionId + " with " + merchantName)
        && r.0.alerts == s.alerts && r.0.nextAlertId == s.nextAlertId
  {
    match MerchantByName(s, merchantName)
    case None =>
    case Some(m) =>
      if m.isActive && user.balance >= amount {
        var nt := OrderTransaction(user, m, amount, description, now, draw);
        var nc := OrderLog(user, merchantName, amount, description, nt.transactionId);
        OrderDescriptionKept(description, m.name);
        assert OrNull(nc.response) == nc.response by {
          assert ("Created order " + nt.transactionId + " with " + merchantName)[0] == 'C';
        }
        BookOrderRecords(s, user, nt, nc, now);
      }
  }

  /** Once the caller's account exists, placing an order keeps a valid store valid. */
  lemma PlaceOrderKeepsValid(
    s: Store, user: User, merchantName: string, amount: PositiveCents,
    description: Option<string>, now: Time, draw: Draw)
    requires Valid(s) && Stored(s, user)
    ensures Valid(PlaceOrder(s, user, merchantName, amount, description, now, draw).0)
  {
    var r := PlaceOrder(s, user, merchantName, amount, description, now, draw);
    if r.1.Ordered? {
      MerchantByNameSpec(s, merchantName);
      var m := MerchantByName(s, merchantName).value;
      var nt := OrderTransaction(user, m, amount, description, now, draw);
      var nc := OrderLog(user, merchantName, amount, description, nt.transactionId);
      assert r.0 == BookOrder(s, user, nt, nc, now).0;
      BookOrderRecords(s, user, nt, nc, now);
      BookOrderWellFormed(s, user, nt, nc, now);
      SameDiscordIds(s, r.0);
    }
  }

  /**
    Once the caller's account exists, an order that goes through debits
    exactly the amount from it and touches no other account; any other
    outcome leaves every account alone.
  */
  lemma PlaceOrderDebits(
    s: Store, user: User, merchantName: string, amount: PositiveCents,
    description: Option<string>, now: Time, draw: Draw)
    requires UsersKeyed(s) && Stored(s, user)
    ensures var r := PlaceOrder(s, user, merchantName, amount, description, now, draw);
      && r.0.nextUserId == s.nextUserId
      && (r.1.Ordered? ==> r.0.users == s.users[user.id := user.(balance := user.balance - amount)])
      && (r.1.Ordered? ==> TotalBalance(r.0) == TotalBalance(s) - amount)
      && (!r.1.Ordered? ==> r.0.users == s.users)
  {
    var r := PlaceOrder(s, user, merchantName, amount, description, now, draw);
    if r.1.Ordered? {
      var m := MerchantByName(s, merchantName).value;
      var nt := OrderTransaction(user, m, amount, description, now, draw);
      var nc := OrderLog(user, merchantName, amount, description, nt.transactionId);
      assert r.0 == BookOrder(s, user, nt, nc, now).0;
      BookOrderDebits(s, user, nt, nc, now);
      BookOrderTotal(s, user, nt, nc, now);
      assert nt.amount == amount;
      assert user.(balance := user.balance - nt.amount) == user.(balance := user.balance - amount);
    }
  }

  /** An order is only booked when the balance as read covers it, so no balance turns negative. */
  lemma PlaceOrderKeepsBalancesNonNegative(
    s: Store, user: User, merchantName: string, amount: PositiveCents,
    description: Option<string>, now: Time, draw: Draw)
    requires UsersKeyed(s) && Stored(s, user) && NonNegativeBalances(s)
    ensures NonNegativeBalances(PlaceOrder(s, user, merchantName, amount, description, now, draw).0)
  {
    PlaceOrderDebits(s, user, merchantName, amount, description, now, draw);
  }

  // ------------------------------------------------------- end to end

  /** Ensuring the caller's account leaves the merchant lookup as it was. */
  lemma EnsureUserKeepsMerchants(s: Store, caller: DiscordUser, merchantName: string, now: Time)
    ensures MerchantByName(EnsureUser(s, caller, now).0, merchantName) == MerchantByName(s, merchantName)
  {
    assert AllMerchants(EnsureUser(s, caller, now).0) == AllMerchants(s);
  }

  /**
    The outcome of an order: refused as unknown exactly when no stored
    merchant has that name; as inactive exactly when the first one of
    that name is inactive; for the balance exactly when it is active and
    the caller's balance is below the amount; booked otherwise, so an
    order of one's whole balance goes through.
  */
  lemma OrderOutcomes(
    s: Store, caller: DiscordUser, merchantName: string, amount: PositiveCents,
    description: Option<string>, now: Time, draw: Draw)
    requires Valid(s)
    ensures var r := Order(s, caller, merchantName, amount, description, now, draw);
      var found := MerchantByName(s, merchantName);
      && (r.1.UnknownMerchant? <==> forall i :: i in s.merchants ==> s.merchants[i].name != merchantName)
      && (r.1.InactiveMerchant? <==> found.Some? && !found.value.isActive)
      && (r.1.BalanceTooLow? <==> found.Some? && found.value.isActive && BalanceOf(s, caller) < amount)
      && (r.1.Ordered? <==> found.Some? && found.value.isActive && BalanceOf(s, caller) >= amount)
  {
    EnsureUserSpec(s, caller, now);
    EnsureUserKeepsMerchants(s, caller, merchantName, now);
    MerchantByNameSpec(s, merchantName);
  }

  /**
    A refused order changes nothing but possibly opening the caller's
    account: no transaction, balance, alert or log entry.
  */
  lemma OrderRefusalChangesNothing(
    s: Store, caller: DiscordUser, merchantName: string, amount: PositiveCents,
    description: Option<string>, now: Time, draw: Draw)
    requires Valid(s)
    ensures var r := Order(s, caller, merchantName, amount, description, now, draw);
      !r.1.Ordered? ==>
        && Valid(r.0) && OnlyAccountsOpened(s, r.0)
        && r.0.nextUserId <= s.nextUserId + 1
  {
    EnsureUserSpec(s, caller, now);
  }

  /**
    An order that goes through records one pending transaction of the
    caller's account against the merchant found by name, and one log entry.
  */
  lemma OrderBooksPending(
    s: Store, caller: DiscordUser, merchantName: string, amount: PositiveCents,
    description: Option<string>, now: Time, draw: Draw)
    requires Valid(s)
    ensures var r := Order(s, caller, merchantName, amount, description, now, draw);
      r.1.Ordered? ==>
        var tx := r.1.transaction;
        && MerchantByName(s, merchantName).Some?
        && tx.merchantId == MerchantByName(s, merchantName).value.id
        && r.0.transactions == s.transactions[s.nextTransactionId := tx]
        && r.0.nextTransactionId == s.nextTransactionId + 1
        && tx.status == Pending && tx.amount == amount && tx.createdAt == now
        && tx.transactionId == TransactionId(now, draw)
        && tx.userId in r.0.users && r.0.users[tx.userId].discordId == caller.id
        && r.0.commands == s.commands[s.nextCommandId := r.1.command]
        && r.0.nextCommandId == s.nextCommandId + 1
        && r.1.command.commandName == "order"
  {
    var (s1, user) := EnsureUser(s, caller, now);
    EnsureUserSpec(s, caller, now);
    EnsureUserKeepsMerchants(s, caller, merchantName, now);
    PlaceOrderRecords(s1, user, merchantName, amount, description, now, draw);
    PlaceOrderDebits(s1, user, merchantName, amount, description, now, draw);
  }

  /** Whatever the outcome, an order leaves a valid store valid. */
  lemma OrderKeepsValid(
    s: Store, caller: DiscordUser, merchantName: string, amount: PositiveCents,
    description: Option<string>, now: Time, draw: Draw)
    requires Valid(s)
    ensures Valid(Order(s, caller, merchantName, amount, description, now, draw).0)
  {
    var (s1, user) := EnsureUser(s, caller, now);
    EnsureUserSpec(s, caller, now);
    PlaceOrderKeepsValid(s1, user, merchantName, amount, description, now, draw);
  }

  /**
    The caller pays for an order when it is placed, not when it settles:
    an order that goes through lowers the caller's balance by the amount
    at once, and the money held by the amount less than the accounts opened.
  */
  lemma OrderDebitsCaller(
    s: Store, caller: DiscordUser, merchantName: string, amount: PositiveCents,
    description: Option<string>, now: Time, draw: Draw)
    requires Valid(s)
    ensures var r := Order(s, caller, merchantName, amount, description, now, draw);
      && TotalBalance(r.0) == TotalBalance(s) + StartingBalance * (r.0.nextUserId - s.nextUserId)
                              - (if r.1.Ordered? then amount else 0)
      && (r.1.Ordered? ==> BalanceOf(r.0, caller) == BalanceOf(s, caller) - amount)
  {
    var (s1, user) := EnsureUser(s, caller, now);
    var r := Order(s, caller, merchantName, amount, description, now, draw);
    EnsureUserSpec(s, caller, now);
    PlaceOrderDebits(s1, user, merchantName, amount, description, now, draw);
    if r.1.Ordered? {
      PlaceOrderKeepsValid(s1, user, merchantName, amount, description, now, draw);
      LookupAt(r.0, caller, user.id);
    }
  }

  /** An order never leaves an account below zero that was not already. */
  lemma OrderKeepsBalancesNonNegative(
    s: Store, caller: DiscordUser, merchantName: string, amount: PositiveCents,
    description: Option<string>, now: Time, draw: Draw)
    requires Valid(s) && NonNegativeBalances(s)
    ensures NonNegativeBalances(Order(s, caller, merchantName, amount, description, now, draw).0)
  {
    var (s1, user) := EnsureUser(s, caller, now);
    EnsureUserSpec(s, caller, now);
    assert NonNegativeBalances(s1);
    PlaceOrderKeepsBalancesNonNegative(s1, user, merchantName, amount, description, now, draw);
  }
}
