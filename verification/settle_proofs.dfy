/**
  The order's settlement timer and the completed volume: settling is
  idempotent and keeps the store valid, and the volume counts a payment
  as soon as it is booked but an order only once it is settled.
*/
module SettleProofs {
  import opened Options
  import opened Seqs
  import opened Schema
  import opened Storage
  import opened Views
  import opened Digits
  import opened Bot
  import opened BotProofs
  import opened OrderProofs

  // -------------------------------------------------------- settlement

  /** Settling twice is settling once, at the later time. */
  lemma SettleIdempotent(s: Store, id: nat, first: Time, second: Time)
    ensures Settle(Settle(s, id, first), id, second) == Settle(s, id, second)
  {
    if id in s.transactions {
      assert Settle(s, id, first).transactions[id := Settle(s, id, second).transactions[id]]
          == Settle(s, id, second).transactions;
    }
  }

  /** Settlement keeps a valid store valid, and keeps transaction ids unique if they were. */
  lemma SettleKeepsValid(s: Store, id: nat, now: Time)
    requires Valid(s)
    ensures Valid(Settle(s, id, now))
    ensures UniqueTransactionIds(s) ==> UniqueTransactionIds(Settle(s, id, now))
  {
    UpdateTransactionStatusWellFormed(s, id, Completed, now);
    assert Settle(s, id, now).users == s.users;
  }

  // ---------------------------------------------------- completed volume

  /** Appending one transaction adds its amount to the volume exactly when it is completed. */
  lemma AppendVolume(s: Store, t: Store, tx: Transaction)
    requires s.nextTransactionId >= 1
    requires t.transactions == s.transactions[s.nextTransactionId := tx]
    requires t.nextTransactionId == s.nextTransactionId + 1
    ensures TotalVolume(t) == TotalVolume(s) + (if tx.status == Completed then tx.amount else 0)
  {
    ColumnSnoc(s.transactions, s.nextTransactionId, tx);
    assert AllTransactions(t) == AllTransactions(s) + [tx];
    FilterSnoc(AllTransactions(s), tx, IsCompleted);
    var kept := if IsCompleted(tx) then [tx] else [];
    SumAppend(Filter(AllTransactions(s), IsCompleted), kept, Amount);
    if IsCompleted(tx) {
      assert kept[..0] == [];
    }
  }

  /**
    Settling a transaction that was not yet completed adds its amount to
    the volume; settling one that was, or an id that is not stored,
    leaves the volume as it was.
  */
  lemma SettleVolume(s: Store, id: nat, now: Time)
    requires TransactionsKeyed(s)
    ensures TotalVolume(Settle(s, id, now)) == TotalVolume(s)
      + (if id in s.transactions && s.transactions[id].status != Completed then s.transactions[id].amount else 0)
  {
    var t := Settle(s, id, now);
    if id in s.transactions {
      var f := Masked(IsCompleted, Amount);
      var before := s.transactions[id];
      var v := before.(status := Completed, updatedAt := now);
      var c := AllTransactions(s);
      UpdateTransactionStatusColumn(s, id, Completed, now);
      assert AllTransactions(t) == c[id - 1 := v];
      SumUpdate(c, id - 1, v, f);
    } else {
      assert t == s;
    }
  }

  /** A payment counts in the volume as soon as it is booked: it is completed from the start. */
  lemma PayVolume(
    s: Store, sender: DiscordUser, recipient: DiscordUser, amount: PositiveCents, now: Time, draw: Draw)
    requires Valid(s)
    ensures var r := Pay(s, sender, recipient, amount, now, draw);
      TotalVolume(r.0) == TotalVolume(s) + (if r.1.Paid? then amount else 0)
  {
    var r := Pay(s, sender, recipient, amount, now, draw);
    if r.1.Paid? {
      PayBooksPayment(s, sender, recipient, amount, now, draw);
      AppendVolume(s, r.0, r.1.transaction);
    } else {
      assert AllTransactions(r.0) == AllTransactions(s);
    }
  }

  /** Placing an order leaves the volume as it was: the order is pending. */
  lemma OrderVolume(
    s: Store, caller: DiscordUser, merchantName: string, amount: PositiveCents,
    description: Option<string>, now: Time, draw: Draw)
    requires Valid(s)
    ensures TotalVolume(Order(s, caller, merchantName, amount, description, now, draw).0) == TotalVolume(s)
  {
    var r := Order(s, caller, merchantName, amount, description, now, draw);
    if r.1.Ordered? {
      OrderBooksPending(s, caller, merchantName, amount, description, now, draw);
      AppendVolume(s, r.0, r.1.transaction);
    } else {
      assert AllTransactions(r.0) == AllTransactions(s);
    }
  }

  /**
    Once the settlement timer of an order fires, at any later time, the
    volume has grown by exactly the order's amount.
  */
  lemma OrderThenSettleVolume(
    s: Store, caller: DiscordUser, merchantName: string, amount: PositiveCents,
    description: Option<string>, now: Time, draw: Draw, later: Time)
    requires Valid(s)
    ensures var r := Order(s, caller, merchantName, amount, description, now, draw);
      r.1.Ordered? ==> TotalVolume(Settle(r.0, r.1.transaction.id, later)) == TotalVolume(s) + amount
  {
    var r := Order(s, caller, merchantName, amount, description, now, draw);
    if r.1.Ordered? {
      OrderVolume(s, caller, merchantName, amount, description, now, draw);
      OrderBooksPending(s, caller, merchantName, amount, description, now, draw);
      OrderKeepsValid(s, caller, merchantName, amount, description, now, draw);
      SettleVolume(r.0, r.1.transaction.id, later);
    }
  }
}
