/**
  What `/history` and `/merchants` promise: the history lists the
  target's newest transactions, up to the limit, and the merchant list is
  exactly the active merchants in id order; both only log the lookup.
*/
module ListingProofs {
  import opened Options
  import opened Seqs
  import opened Schema
  import opened Storage
  import opened Views
  import opened Digits
  import opened Bot
  import opened BotProofs

  // ----------------------------------------------------------- history

  /**
    The newest transactions of one account: whatever the list leaves out
    is no newer than anything it holds, and when the account has at most
    `limit` transactions the list holds all of them.
  */
  lemma TransactionsByUserIdNewest(s: Store, userId: nat, limit: Option<nat>)
    ensures var r := TransactionsByUserId(s, userId, limit);
      var mine := Filter(AllTransactions(s), OfUser(userId));
      && |r| == (if limit.GetOr(DefaultLimit) <= |mine| then limit.GetOr(DefaultLimit) else |mine|)
      && multiset(r) <= multiset(mine)
      && (forall t, x :: t in AllTransactions(s) && t.userId == userId && t !in r && x in r ==> x.createdAt >= t.createdAt)
      && (|mine| <= limit.GetOr(DefaultLimit) ==> multiset(r) == multiset(mine))
  {
    var mine := Filter(AllTransactions(s), OfUser(userId));
    NewestFirstKeepsNewest(mine, limit.GetOr(DefaultLimit));
  }

  /**
    `/history` shows the account of the target (the caller when no user
    is given), opening it if need be, and lists that account's newest
    transactions: at most the limit, five when no limit or zero is given,
    newest first, and all of them when there are no more than that.
  */
  lemma HistoryListsNewest(s: Store, caller: DiscordUser, target: Option<DiscordUser>, limit: Option<nat>, now: Time)
    requires Valid(s)
    ensures var who := target.GetOr(caller);
      var r := History(s, caller, target, limit, now);
      var n := HistoryLimit(limit);
      var mine := Filter(AllTransactions(s), OfUser(r.1.user.id));
      && r.1.user.discordId == who.id && r.1.user.balance == BalanceOf(s, who)
      && UserByDiscordId(r.0, who.id) == Some(r.1.user)
      && |r.1.transactions| == (if n <= |mine| then n else |mine|)
      && multiset(r.1.transactions) <= multiset(mine)
      && SortedDesc(r.1.transactions, CreatedAt)
      && (forall t :: t in r.1.transactions ==> t in AllTransactions(s) && t.userId == r.1.user.id)
      && (forall t, x :: t in mine && t !in r.1.transactions && x in r.1.transactions ==> x.createdAt >= t.createdAt)
      && (|mine| <= n ==> multiset(r.1.transactions) == multiset(mine))
  {
    var who := target.GetOr(caller);
    var (s1, user) := EnsureUser(s, who, now);
    EnsureUserSpec(s, who, now);
    HistoryParts(s, caller, target, limit, now);
    TransactionsByUserIdNewest(s, user.id, Some(HistoryLimit(limit)));
  }

  /** `/history` shows the ensured account and the store's list of its transactions. */
  lemma HistoryParts(s: Store, caller: DiscordUser, target: Option<DiscordUser>, limit: Option<nat>, now: Time)
    ensures var (s1, user) := EnsureUser(s, target.GetOr(caller), now);
      var r := History(s, caller, target, limit, now);
      && r.1.user == user
      && AllUsers(r.0) == AllUsers(s1)
      && r.1.transactions == TransactionsByUserId(s, user.id, Some(HistoryLimit(limit)))
  {
    var (s1, user) := EnsureUser(s, target.GetOr(caller), now);
    assert AllTransactions(s1) == AllTransactions(s);
  }

  /**
    `/history` changes nothing but possibly opening the target's account
    and one log entry of the lookup, made under that account.
  */
  lemma HistoryOnlyLogs(s: Store, caller: DiscordUser, target: Option<DiscordUser>, limit: Option<nat>, now: Time)
    requires Valid(s)
    ensures var r := History(s, caller, target, limit, now);
      && Valid(r.0)
      && OnlyAccountsOpened(s, r.0.(commands := s.commands, nextCommandId := s.nextCommandId))
      && r.0.commands == s.commands[s.nextCommandId := r.1.command]
      && r.0.nextCommandId == s.nextCommandId + 1
      && r.1.command.commandName == "history" && r.1.command.userId == r.1.user.id
      && r.1.command.executedAt == now
  {
    var who := target.GetOr(caller);
    var (s1, user) := EnsureUser(s, who, now);
    EnsureUserSpec(s, who, now);
    var n := HistoryLimit(limit);
    var txs := TransactionsByUserId(s1, user.id, Some(n));
    var nc := HistoryLog(caller, who, user, n, |txs|);
    CreateBotCommandWellFormed(s1, nc, now);
  }

  // --------------------------------------------------------- merchants

  function MerchantId(m: Merchant): int { m.id }

  /** `getAllMerchants` returns the merchants in id order. */
  lemma MerchantsInIdOrder(s: Store)
    requires MerchantsKeyed(s)
    ensures Increasing(AllMerchants(s), MerchantId)
  {
    ColumnDense(s.merchants, s.nextMerchantId);
  }

  /**
    `/merchants` lists exactly the active stored merchants, each once and
    in id order.
  */
  lemma ListMerchantsExact(s: Store, caller: DiscordUser, now: Time)
    requires WellFormed(s)
    ensures var r := ListMerchants(s, caller, now);
      && Increasing(r.1, MerchantId)
      && (forall m :: m in r.1 <==> (exists i :: i in s.merchants && s.merchants[i] == m) && m.isActive)
  {
    MerchantsInIdOrder(s);
    FilterIncreasing(AllMerchants(s), IsActive, MerchantId);
    ColumnMembers(s.merchants, s.nextMerchantId);
  }

  /**
    `/merchants` changes nothing but possibly opening the caller's account
    and one log entry, without parameters, counting the merchants listed.
  */
  lemma ListMerchantsOnlyLogs(s: Store, caller: DiscordUser, now: Time)
    requires Valid(s)
    ensures var r := ListMerchants(s, caller, now);
      var c := r.0.commands[s.nextCommandId];
      && Valid(r.0)
      && OnlyAccountsOpened(s, r.0.(commands := s.commands, nextCommandId := s.nextCommandId))
      && r.0.commands == s.commands[s.nextCommandId := c]
      && r.0.nextCommandId == s.nextCommandId + 1
      && c.commandName == "merchants" && c.parameters.None?
      && c.response == Some("Listed " + NatToString(|r.1|) + " merchants")
      && c.userId in r.0.users && r.0.users[c.userId].discordId == caller.id
  {
    var (s1, user) := EnsureUser(s, caller, now);
    EnsureUserSpec(s, caller, now);
    var active := Filter(AllMerchants(s), IsActive);
    var nc := NewBotCommand("merchants", user.id, None, Some("Listed " + NatToString(|active|) + " merchants"));
    assert OrNull(nc.response) == nc.response by {
      assert ("Listed " + NatToString(|active|) + " merchants")[0] == 'L';
    }
    CreateBotCommandWellFormed(s1, nc, now);
  }
}
