/**
  `MemStorage`: five id-keyed tables, each with its own auto-increment
  counter. Every mutator is a pure function returning the next store and
  what the JavaScript method returns; `new Date()` is the `now` parameter.
*/
module Storage {
  import opened Options
  import opened Seqs
  import opened Schema

  datatype Store = Store(
    users: map<nat, User>,
    merchants: map<nat, Merchant>,
    transactions: map<nat, Transaction>,
    commands: map<nat, BotCommand>,
    alerts: map<nat, Alert>,
    nextUserId: nat,
    nextMerchantId: nat,
    nextTransactionId: nat,
    nextCommandId: nat,
    nextAlertId: nat)

  // ------------------------------------------------------------ columns

  /**
    The values of a table in the order `Array.from(map.values())` yields
    them: insertion order, which is id order because ids only grow.
  */
  function Column<T>(m: map<nat, T>, next: nat): seq<T>
  {
    if next <= 1 then [] else Column(m, next - 1) + (if next - 1 in m then [m[next - 1]] else [])
  }

  /** The keys of `m` are exactly the ids handed out so far, 1 .. next-1. */
  ghost predicate Dense<T>(m: map<nat, T>, next: nat) {
    next >= 1 && forall i :: i in m <==> 1 <= i < next
  }

  lemma {:induction false} ColumnDense<T>(m: map<nat, T>, next: nat)
    requires next >= 1 && forall i :: 1 <= i < next ==> i in m
    ensures |Column(m, next)| == next - 1
    ensures forall k :: 0 <= k < next - 1 ==> Column(m, next)[k] == m[k + 1]
    decreases next
  {
    if next > 1 {
      ColumnDense(m, next - 1);
    }
  }

  lemma {:induction false} ColumnFrame<T>(m: map<nat, T>, m': map<nat, T>, next: nat)
    requires forall i :: 1 <= i < next ==> (i in m <==> i in m') && (i in m ==> m[i] == m'[i])
    ensures Column(m, next) == Column(m', next)
    decreases next
  {
    if next > 1 {
      ColumnFrame(m, m', next - 1);
    }
  }

  /** Storing under the counter appends to the column. */
  lemma ColumnSnoc<T>(m: map<nat, T>, next: nat, v: T)
    requires next >= 1
    ensures Column(m[next := v], next + 1) == Column(m, next) + [v]
  {
    ColumnFrame(m[next := v], m, next);
  }

  /** Replacing a stored record replaces it in place in the column. */
  lemma ColumnUpdate<T>(m: map<nat, T>, next: nat, k: nat, v: T)
    requires Dense(m, next) && k in m
    ensures |Column(m, next)| == next - 1
    ensures Column(m[k := v], next) == Column(m, next)[k - 1 := v]
  {
    ColumnDense(m, next);
    ColumnDense(m[k := v], next);
  }

  lemma ColumnMembers<T>(m: map<nat, T>, next: nat)
    requires Dense(m, next)
    ensures forall x :: x in Column(m, next) <==> exists i :: i in m && m[i] == x
  {
    ColumnDense(m, next);
    var c := Column(m, next);
    forall x ensures x in c <==> exists i :: i in m && m[i] == x {
      if x in c {
        var k :| 0 <= k < |c| && c[k] == x;
        assert m[k + 1] == x;
      }
      if exists i :: i in m && m[i] == x {
        var i :| i in m && m[i] == x;
        assert c[i - 1] == x;
      }
    }
  }

  // ------------------------------------------------------- invariants

  ghost predicate UsersKeyed(s: Store) {
    Dense(s.users, s.nextUserId) && forall i :: i in s.users ==> s.users[i].id == i
  }

  ghost predicate MerchantsKeyed(s: Store) {
    Dense(s.merchants, s.nextMerchantId) && forall i :: i in s.merchants ==> s.merchants[i].id == i
  }

  ghost predicate TransactionsKeyed(s: Store) {
    Dense(s.transactions, s.nextTransactionId)
    && forall i :: i in s.transactions ==> s.transactions[i].id == i
  }

  ghost predicate CommandsKeyed(s: Store) {
    Dense(s.commands, s.nextCommandId) && forall i :: i in s.commands ==> s.commands[i].id == i
  }

  ghost predicate AlertsKeyed(s: Store) {
    Dense(s.alerts, s.nextAlertId) && forall i :: i in s.alerts ==> s.alerts[i].id == i
  }

  /** users.discord_id is UNIQUE. */
  ghost predicate UniqueDiscordIds(s: Store) {
    forall i, j :: i in s.users && j in s.users && s.users[i].discordId == s.users[j].discordId ==> i == j
  }

  /** transactions.transaction_id is UNIQUE; the in-memory store never checks it. */
  ghost predicate UniqueTransactionIds(s: Store) {
    forall i, j ::
      (i in s.transactions && j in s.transactions
       && s.transactions[i].transactionId == s.transactions[j].transactionId) ==> i == j
  }

  /** The foreign keys of transactions and bot_commands. */
  ghost predicate References(s: Store) {
    && (forall i :: i in s.transactions ==> s.transactions[i].userId in s.users)
    && (forall i :: i in s.transactions ==> s.transactions[i].merchantId in s.merchants)
    && (forall i :: i in s.commands ==> s.commands[i].userId in s.users)
  }

  /** The structural part of validity: dense keyed tables, foreign keys, the peer merchant. */
  ghost predicate WellFormed(s: Store) {
    && UsersKeyed(s) && MerchantsKeyed(s) && TransactionsKeyed(s) && CommandsKeyed(s) && AlertsKeyed(s)
    && References(s)
    && PeerMerchantId in s.merchants
  }

  /** What every reachable store satisfies. */
  ghost predicate Valid(s: Store) {
    WellFormed(s) && UniqueDiscordIds(s)
  }

  /** Discord ids stay unique as long as no account is added or renamed. */
  lemma SameDiscordIds(s: Store, t: Store)
    requires UniqueDiscordIds(s) && t.users.Keys == s.users.Keys
    requires forall i :: i in s.users ==> t.users[i].discordId == s.users[i].discordId
    ensures UniqueDiscordIds(t)
  {
    forall i, j | i in t.users && j in t.users && t.users[i].discordId == t.users[j].discordId
      ensures i == j
    {
      assert s.users[i].discordId == s.users[j].discordId;
    }
  }

  // ------------------------------------------------- frame predicates

  predicate OnlyUsersChanged(s: Store, t: Store) {
    t == s.(users := t.users, nextUserId := t.nextUserId)
  }

  predicate OnlyMerchantsChanged(s: Store, t: Store) {
    t == s.(merchants := t.merchants, nextMerchantId := t.nextMerchantId)
  }

  predicate OnlyTransactionsChanged(s: Store, t: Store) {
    t == s.(transactions := t.transactions, nextTransactionId := t.nextTransactionId)
  }

  predicate OnlyCommandsChanged(s: Store, t: Store) {
    t == s.(commands := t.commands, nextCommandId := t.nextCommandId)
  }

  predicate OnlyAlertsChanged(s: Store, t: Store) {
    t == s.(alerts := t.alerts, nextAlertId := t.nextAlertId)
  }

  // ------------------------------------------------------ constructor

  /** The five merchants `initializeDefaultData` stores: name, category, description. */
  const DefaultMerchants: seq<(string, string, string)> := [
    ("Burger Palace", "food", "Premium burgers and fries"),
    ("Pizza Corner", "food", "Fresh pizzas and sides"),
    ("GameStop Express", "items", "Gaming gear and accessories"),
    ("Brew Masters", "food", "Coffee and beverages"),
    ("Taco Bell Game", "food", "Mexican-style fast food")
  ]

  function Seed(s: Store, seeds: seq<(string, string, string)>, now: Time): (t: Store)
    requires MerchantsKeyed(s)
    ensures MerchantsKeyed(t) && OnlyMerchantsChanged(s, t)
    ensures t.nextMerchantId == s.nextMerchantId + |seeds|
    ensures forall i :: i in s.merchants ==> i in t.merchants && t.merchants[i] == s.merchants[i]
    ensures forall k :: 0 <= k < |seeds| ==>
      t.merchants[s.nextMerchantId + k]
        == Merchant(s.nextMerchantId + k, seeds[k].0, seeds[k].1, Some(seeds[k].2), true, now)
    decreases |seeds|
  {
    if |seeds| == 0 then s
    else
      var id := s.nextMerchantId;
      var m := Merchant(id, seeds[0].0, seeds[0].1, Some(seeds[0].2), true, now);
      var s' := s.(merchants := s.merchants[id := m], nextMerchantId := id + 1);
      var t := Seed(s', seeds[1..], now);
      assert forall k :: 1 <= k < |seeds| ==> seeds[k] == seeds[1..][k - 1];
      t
  }

  /** `new MemStorage()` at time `now`. */
  function Init(now: Time): (s: Store)
    ensures Valid(s) && UniqueTransactionIds(s)
    ensures s.users == map[] && s.transactions == map[] && s.commands == map[] && s.alerts == map[]
    ensures s.nextMerchantId == 6 && s.merchants.Keys == {1, 2, 3, 4, 5}
    ensures forall i :: i in s.merchants ==> s.merchants[i].isActive
    ensures forall i :: 1 <= i <= 5 ==> s.merchants[i].name == DefaultMerchants[i - 1].0
  {
    var empty := Store(map[], map[], map[], map[], map[], 1, 1, 1, 1, 1);
    var s := Seed(empty, DefaultMerchants, now);
    assert forall i :: i in s.merchants <==> 1 <= i < 6;
    assert s.merchants.Keys == {1, 2, 3, 4, 5};
    s
  }

  // ------------------------------------------------------------- users

  function AllUsers(s: Store): seq<User> {
    Column(s.users, s.nextUserId)
  }

  function GetUser(s: Store, id: nat): Option<User> {
    if id in s.users then Some(s.users[id]) else None
  }

  function HasDiscordId(discordId: string): User -> bool {
    (u: User) => u.discordId == discordId
  }

  /** `getUserByDiscordId`: the first user, in insertion order, with that id. */
  function UserByDiscordId(s: Store, discordId: string): (r: Option<User>)
    ensures r.Some? ==> r.value in AllUsers(s) && r.value.discordId == discordId
    ensures r.None? <==> forall u :: u in AllUsers(s) ==> u.discordId != discordId
  {
    Find(AllUsers(s), HasDiscordId(discordId))
  }

  /** In a valid store the lookup answers exactly whether the id is registered, with the stored record. */
  lemma UserByDiscordIdSpec(s: Store, discordId: string)
    requires WellFormed(s)
    ensures var r := UserByDiscordId(s, discordId);
      && (r.Some? <==> exists i :: i in s.users && s.users[i].discordId == discordId)
      && (r.Some? ==> r.value.id in s.users && s.users[r.value.id] == r.value && r.value.discordId == discordId)
  {
    ColumnMembers(s.users, s.nextUserId);
    var r := UserByDiscordId(s, discordId);
    if exists i :: i in s.users && s.users[i].discordId == discordId {
      var i :| i in s.users && s.users[i].discordId == discordId;
      assert s.users[i] in AllUsers(s);
      assert HasDiscordId(discordId)(s.users[i]);
    }
  }

  /** `createUser`: stored under the counter, which moves on; balance defaults to "0.00". */
  function CreateUser(s: Store, nu: NewUser, now: Time): (r: (Store, User))
    ensures OnlyUsersChanged(s, r.0)
    ensures r.1.id == s.nextUserId && r.0.nextUserId == s.nextUserId + 1
    ensures r.0.users == s.users[s.nextUserId := r.1]
    ensures r.1.discordId == nu.discordId && r.1.username == nu.username && r.1.createdAt == now
    ensures r.1.balance == if nu.balance.Some? then nu.balance.value else DefaultBalance
  {
    var u := User(s.nextUserId, nu.discordId, nu.username, nu.balance.GetOr(DefaultBalance), now);
    (s.(users := s.users[u.id := u], nextUserId := u.id + 1), u)
  }

  /** A new user with a fresh discord id keeps the store valid and appends to the user list. */
  lemma CreateUserValid(s: Store, nu: NewUser, now: Time)
    requires Valid(s)
    requires forall i :: i in s.users ==> s.users[i].discordId != nu.discordId
    ensures Valid(CreateUser(s, nu, now).0)
    ensures AllUsers(CreateUser(s, nu, now).0) == AllUsers(s) + [CreateUser(s, nu, now).1]
  {
    var (t, u) := CreateUser(s, nu, now);
    ColumnSnoc(s.users, s.nextUserId, u);
  }

  /** `updateUserBalance`: only that user's balance; an unknown id changes nothing. */
  function UpdateUserBalance(s: Store, id: nat, balance: Cents): (r: (Store, Option<User>))
    ensures OnlyUsersChanged(s, r.0) && r.0.nextUserId == s.nextUserId
    ensures r.0.users.Keys == s.users.Keys
    ensures forall k :: k in s.users && k != id ==> r.0.users[k] == s.users[k]
    ensures id !in s.users ==> r == (s, None)
    ensures id in s.users ==> r.1 == Some(r.0.users[id]) && r.0.users[id] == s.users[id].(balance := balance)
  {
    if id in s.users then
      var u := s.users[id].(balance := balance);
      (s.(users := s.users[id := u]), Some(u))
    else (s, None)
  }

  /** In the listing, a balance change replaces the user in its own place. */
  lemma UpdateUserBalanceColumn(s: Store, id: nat, balance: Cents)
    requires Dense(s.users, s.nextUserId) && id in s.users
    ensures var c := AllUsers(s);
      && 1 <= id <= |c| && c[id - 1] == s.users[id]
      && AllUsers(UpdateUserBalance(s, id, balance).0) == c[id - 1 := s.users[id].(balance := balance)]
  {
    var u := s.users[id].(balance := balance);
    assert UpdateUserBalance(s, id, balance).0 == s.(users := s.users[id := u]);
    ColumnUpdate(s.users, s.nextUserId, id, u);
    ColumnDense(s.users, s.nextUserId);
  }

  lemma UpdateUserBalanceWellFormed(s: Store, id: nat, balance: Cents)
    requires WellFormed(s)
    ensures WellFormed(UpdateUserBalance(s, id, balance).0)
  {
  }

  // --------------------------------------------------------- merchants

  function AllMerchants(s: Store): seq<Merchant> {
    Column(s.merchants, s.nextMerchantId)
  }

  function GetMerchant(s: Store, id: nat): Option<Merchant> {
    if id in s.merchants then Some(s.merchants[id]) else None
  }

  function HasName(name: string): Merchant -> bool {
    (m: Merchant) => m.name == name
  }

  /** `getMerchantByName`: names are not unique, so the lowest id wins. */
  function MerchantByName(s: Store, name: string): (r: Option<Merchant>)
    ensures r.Some? ==> r.value in AllMerchants(s) && r.value.name == name
    ensures r.None? <==> forall m :: m in AllMerchants(s) ==> m.name != name
  {
    Find(AllMerchants(s), HasName(name))
  }

  /** The lookup finds a stored merchant of that name exactly when one exists, and the oldest one. */
  lemma MerchantByNameSpec(s: Store, name: string)
    requires WellFormed(s)
    ensures var r := MerchantByName(s, name);
      && (r.Some? <==> exists i :: i in s.merchants && s.merchants[i].name == name)
      && (r.Some? ==> r.value.id in s.merchants && s.merchants[r.value.id] == r.value && r.value.name == name)
      && (r.Some? ==> forall i :: i in s.merchants && i < r.value.id ==> s.merchants[i].name != name)
  {
    ColumnMembers(s.merchants, s.nextMerchantId);
    ColumnDense(s.merchants, s.nextMerchantId);
    var c := AllMerchants(s);
    var r := MerchantByName(s, name);
    if exists i :: i in s.merchants && s.merchants[i].name == name {
      var i :| i in s.merchants && s.merchants[i].name == name;
      assert c[i - 1] == s.merchants[i];
      assert HasName(name)(c[i - 1]);
    }
    if r.Some? {
      var k := FirstIndex(c, HasName(name)).value;
      assert c[k] == r.value;
      forall i | i in s.merchants && i < r.value.id ensures s.merchants[i].name != name {
        assert c[i - 1] == s.merchants[i];
        assert !HasName(name)(c[i - 1]);
      }
    }
  }

  /** `createMerchant`: description `|| null`, isActive `?? true`. */
  function CreateMerchant(s: Store, nm: NewMerchant, now: Time): (r: (Store, Merchant))
    ensures OnlyMerchantsChanged(s, r.0)
    ensures r.1.id == s.nextMerchantId && r.0.nextMerchantId == s.nextMerchantId + 1
    ensures r.0.merchants == s.merchants[s.nextMerchantId := r.1]
    ensures r.1.isActive == (nm.isActive.None? || nm.isActive.value)
    ensures r.1.description.Some? <==> nm.description.Some? && nm.description.value != ""
    ensures r.1.description.Some? ==> r.1.description == nm.description
    ensures r.1.name == nm.name && r.1.category == nm.category && r.1.createdAt == now
  {
    var m := Merchant(s.nextMerchantId, nm.name, nm.category, OrNull(nm.description),
                      nm.isActive.GetOr(true), now);
    (s.(merchants := s.merchants[m.id := m], nextMerchantId := m.id + 1), m)
  }

  lemma CreateMerchantWellFormed(s: Store, nm: NewMerchant, now: Time)
    requires WellFormed(s)
    ensures WellFormed(CreateMerchant(s, nm, now).0)
    ensures AllMerchants(CreateMerchant(s, nm, now).0) == AllMerchants(s) + [CreateMerchant(s, nm, now).1]
  {
    var (t, m) := CreateMerchant(s, nm, now);
    ColumnSnoc(s.merchants, s.nextMerchantId, m);
  }

  // ------------------------------------------------------ transactions

  function AllTransactions(s: Store): seq<Transaction> {
    Column(s.transactions, s.nextTransactionId)
  }

  function GetTransaction(s: Store, id: nat): Option<Transaction> {
    if id in s.transactions then Some(s.transactions[id]) else None
  }

  function HasTransactionId(transactionId: string): Transaction -> bool {
    (t: Transaction) => t.transactionId == transactionId
  }

  /** `getTransactionByTransactionId`: the oldest transaction carrying that public id. */
  function TransactionByTransactionId(s: Store, transactionId: string): (r: Option<Transaction>)
    ensures r.Some? ==> r.value in AllTransactions(s) && r.value.transactionId == transactionId
    ensures r.None? <==> forall t :: t in AllTransactions(s) ==> t.transactionId != transactionId
  {
    Find(AllTransactions(s), HasTransactionId(transactionId))
  }

  /** With unique public ids the lookup returns the one stored transaction with that id. */
  lemma TransactionByTransactionIdSpec(s: Store, transactionId: string)
    requires WellFormed(s) && UniqueTransactionIds(s)
    ensures var r := TransactionByTransactionId(s, transactionId);
      && (r.Some? <==> exists i :: i in s.transactions && s.transactions[i].transactionId == transactionId)
      && (forall i :: i in s.transactions && s.transactions[i].transactionId == transactionId
            ==> r == Some(s.transactions[i]))
  {
    ColumnMembers(s.transactions, s.nextTransactionId);
    var r := TransactionByTransactionId(s, transactionId);
    forall i | i in s.transactions && s.transactions[i].transactionId == transactionId
      ensures r == Some(s.transactions[i])
    {
      assert s.transactions[i] in AllTransactions(s);
      assert HasTransactionId(transactionId)(s.transactions[i]);
      var j :| j in s.transactions && s.transactions[j] == r.value;
    }
  }

  /** `createTransaction`: one timestamp for both dates; description `|| null`. */
  function CreateTransaction(s: Store, nt: NewTransaction, now: Time): (r: (Store, Transaction))
    ensures OnlyTransactionsChanged(s, r.0)
    ensures r.1.id == s.nextTransactionId && r.0.nextTransactionId == s.nextTransactionId + 1
    ensures r.0.transactions == s.transactions[s.nextTransactionId := r.1]
    ensures r.1.createdAt == r.1.updatedAt == now
    ensures r.1.description.Some? <==> nt.description.Some? && nt.description.value != ""
    ensures r.1.description.Some? ==> r.1.description == nt.description
    ensures r.1.transactionId == nt.transactionId && r.1.userId == nt.userId
    ensures r.1.merchantId == nt.merchantId && r.1.amount == nt.amount && r.1.status == nt.status
  {
    var t := Transaction(s.nextTransactionId, nt.transactionId, nt.userId, nt.merchantId, nt.amount,
                         nt.status, OrNull(nt.description), now, now);
    (s.(transactions := s.transactions[t.id := t], nextTransactionId := t.id + 1), t)
  }

  /** Creating a transaction for a stored user and merchant keeps the store valid. */
  lemma CreateTransactionWellFormed(s: Store, nt: NewTransaction, now: Time)
    requires WellFormed(s) && nt.userId in s.users && nt.merchantId in s.merchants
    ensures WellFormed(CreateTransaction(s, nt, now).0)
    ensures AllTransactions(CreateTransaction(s, nt, now).0)
      == AllTransactions(s) + [CreateTransaction(s, nt, now).1]
  {
    var (t, tx) := CreateTransaction(s, nt, now);
    ColumnSnoc(s.transactions, s.nextTransactionId, tx);
  }

  /** A public id not yet in use keeps public ids unique; the store itself does not check this. */
  lemma CreateTransactionUniqueIds(s: Store, nt: NewTransaction, now: Time)
    requires WellFormed(s) && UniqueTransactionIds(s)
    requires forall i :: i in s.transactions ==> s.transactions[i].transactionId != nt.transactionId
    ensures UniqueTransactionIds(CreateTransaction(s, nt, now).0)
  {
  }

  /**
    `updateTransactionStatus`: status and updatedAt only, whatever the
    previous status was; an unknown id changes nothing.
  */
  function UpdateTransactionStatus(s: Store, id: nat, status: Status, now: Time): (r: (Store, Option<Transaction>))
    ensures OnlyTransactionsChanged(s, r.0) && r.0.nextTransactionId == s.nextTransactionId
    ensures r.0.transactions.Keys == s.transactions.Keys
    ensures forall k :: k in s.transactions && k != id ==> r.0.transactions[k] == s.transactions[k]
    ensures id !in s.transactions ==> r == (s, None)
    ensures id in s.transactions ==>
      && r.1 == Some(r.0.transactions[id])
      && r.0.transactions[id] == s.transactions[id].(status := status, updatedAt := now)
  {
    if id in s.transactions then
      var t := s.transactions[id].(status := status, updatedAt := now);
      (s.(transactions := s.transactions[id := t]), Some(t))
    else (s, None)
  }

  /** In the listed column a status change replaces the transaction in place. */
  lemma UpdateTransactionStatusColumn(s: Store, id: nat, status: Status, now: Time)
    requires TransactionsKeyed(s) && id in s.transactions
    ensures var c := AllTransactions(s);
      && 1 <= id <= |c| && c[id - 1] == s.transactions[id]
      && AllTransactions(UpdateTransactionStatus(s, id, status, now).0)
         == c[id - 1 := s.transactions[id].(status := status, updatedAt := now)]
  {
    var v := s.transactions[id].(status := status, updatedAt := now);
    assert UpdateTransactionStatus(s, id, status, now).0 == s.(transactions := s.transactions[id := v]);
    ColumnUpdate(s.transactions, s.nextTransactionId, id, v);
    ColumnDense(s.transactions, s.nextTransactionId);
  }

  lemma UpdateTransactionStatusWellFormed(s: Store, id: nat, status: Status, now: Time)
    requires WellFormed(s)
    ensures WellFormed(UpdateTransactionStatus(s, id, status, now).0)
    ensures UniqueTransactionIds(s) ==> UniqueTransactionIds(UpdateTransactionStatus(s, id, status, now).0)
  {
  }

  // ------------------------------------------------------ bot commands

  function AllCommands(s: Store): seq<BotCommand> {
    Column(s.commands, s.nextCommandId)
  }

  /** `createBotCommand`: parameters and response `|| null`, executedAt now. */
  function CreateBotCommand(s: Store, nc: NewBotCommand, now: Time): (r: (Store, BotCommand))
    ensures OnlyCommandsChanged(s, r.0)
    ensures r.1.id == s.nextCommandId && r.0.nextCommandId == s.nextCommandId + 1
    ensures r.0.commands == s.commands[s.nextCommandId := r.1]
    ensures r.1.commandName == nc.commandName && r.1.userId == nc.userId && r.1.executedAt == now
    ensures r.1.parameters == OrNull(nc.parameters) && r.1.response == OrNull(nc.response)
  {
    var c := BotCommand(s.nextCommandId, nc.commandName, nc.userId, OrNull(nc.parameters),
                        OrNull(nc.response), now);
    (s.(commands := s.commands[c.id := c], nextCommandId := c.id + 1), c)
  }

  lemma CreateBotCommandWellFormed(s: Store, nc: NewBotCommand, now: Time)
    requires WellFormed(s) && nc.userId in s.users
    ensures WellFormed(CreateBotCommand(s, nc, now).0)
    ensures AllCommands(CreateBotCommand(s, nc, now).0) == AllCommands(s) + [CreateBotCommand(s, nc, now).1]
  {
    var (t, c) := CreateBotCommand(s, nc, now);
    ColumnSnoc(s.commands, s.nextCommandId, c);
  }

  // ------------------------------------------------------------ alerts

  function AllAlerts(s: Store): seq<Alert> {
    Column(s.alerts, s.nextAlertId)
  }

  /** `createAlert`: isRead `?? false`. */
  function CreateAlert(s: Store, na: NewAlert, now: Time): (r: (Store, Alert))
    ensures OnlyAlertsChanged(s, r.0)
    ensures r.1.id == s.nextAlertId && r.0.nextAlertId == s.nextAlertId + 1
    ensures r.0.alerts == s.alerts[s.nextAlertId := r.1]
    ensures r.1.kind == na.kind && r.1.message == na.message && r.1.severity == na.severity
    ensures r.1.isRead == (na.isRead.Some? && na.isRead.value) && r.1.createdAt == now
  {
    var a := Alert(s.nextAlertId, na.kind, na.message, na.severity, na.isRead.GetOr(false), now);
    (s.(alerts := s.alerts[a.id := a], nextAlertId := a.id + 1), a)
  }

  lemma CreateAlertWellFormed(s: Store, na: NewAlert, now: Time)
    requires WellFormed(s)
    ensures WellFormed(CreateAlert(s, na, now).0)
    ensures AllAlerts(CreateAlert(s, na, now).0) == AllAlerts(s) + [CreateAlert(s, na, now).1]
  {
    var (t, a) := CreateAlert(s, na, now);
    ColumnSnoc(s.alerts, s.nextAlertId, a);
  }

  /** `markAlertAsRead`: sets isRead and nothing else; an unknown id changes nothing. */
  function MarkAlertAsRead(s: Store, id: nat): (r: (Store, Option<Alert>))
    ensures OnlyAlertsChanged(s, r.0) && r.0.nextAlertId == s.nextAlertId
    ensures r.0.alerts.Keys == s.alerts.Keys
    ensures forall k :: k in s.alerts && k != id ==> r.0.alerts[k] == s.alerts[k]
    ensures id !in s.alerts ==> r == (s, None)
    ensures id in s.alerts ==> r.1 == Some(r.0.alerts[id]) && r.0.alerts[id] == s.alerts[id].(isRead := true)
  {
    if id in s.alerts then
      var a := s.alerts[id].(isRead := true);
      (s.(alerts := s.alerts[id := a]), Some(a))
    else (s, None)
  }

  /** Marking twice leaves the store as marking once does, and keeps it valid. */
  lemma MarkAlertAsReadIdempotent(s: Store, id: nat)
    ensures var t := MarkAlertAsRead(s, id).0;
      MarkAlertAsRead(t, id) == (t, MarkAlertAsRead(s, id).1)
    ensures WellFormed(s) ==> WellFormed(MarkAlertAsRead(s, id).0)
  {
    var t := MarkAlertAsRead(s, id).0;
    if id in s.alerts {
      assert t.alerts[id := t.alerts[id]] == t.alerts;
    }
  }
}
