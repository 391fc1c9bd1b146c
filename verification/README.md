# CommBankTracker ledger, modelled in Dafny

CommBankTracker is a Discord bot that runs a small bank. Each Discord user
gets an account with a starting balance. `/pay` moves money between two
accounts. `/order` buys from a merchant, and a timer settles the order
later. `/history` and `/merchants` list what is stored. Every command
that goes through is written to a command log; a rejected `/pay` or
`/order` writes no log entry. A suspected duplicate payment raises a
fraud alert. A web dashboard reads aggregates of the same store.

This project models:

- the in-memory store `MemStorage` (`server/storage.ts`): five id-keyed
  tables with their counters, their mutators, lookups and aggregate views;
- the state transitions of the chat handlers that drive it
  (`server/discord-bot.ts`): `ensureUser`, `/pay`, `/order` with its
  settlement timer, and the filtering parts of `/history` and
  `/merchants`;
- the two pure formatters: `generateTransactionId` and `timeAgo`;
- the record shapes, value sets, defaults, uniqueness and reference
  constraints of `shared/schema.ts`.

Modules, in dependency order:

| module | file | contents |
|---|---|---|
| `Options` | options.dfy | `Option` |
| `Seqs` | seqs.dfy | filter, find, sum, stable descending insertion sort, distinctness |
| `Digits` | digits.dfy | decimal text, money text (`toFixed(2)` and `${number}`), transaction ids, `timeAgo` |
| `Schema` | schema.dfy | records, enums, defaults, the starting balance |
| `Storage` | storage.dfy | `Store`, the mutators and lookups, the `WellFormed`/`Valid` invariants |
| `Views` | views.dfy | volume, counts, today counts, newest-first lists, top merchants, unread alerts |
| `Bot` | bot.dfy | `EnsureUser`, `Pay`, `Order`, `Settle`, `History`, `ListMerchants` |
| `BotProofs` | bot_proofs.dfy | account opening, the pay flow, conservation |
| `OrderProofs` | order_proofs.dfy | the order flow |
| `SettleProofs` | settle_proofs.dfy | settlement and the completed volume |
| `ListingProofs` | listing_proofs.dfy | `/history` and `/merchants` |

Modelling choices:

- **Money** is an integer number of cents (`Cents`). The slash-command
  options set a minimum of 0.01, so every amount a handler receives is
  at least one cent (`PositiveCents`). The store's decimal strings and
  the handlers' `parseFloat(...)`/`toFixed(2)` round trips become exact
  integer arithmetic.
- **Time** is a natural number of milliseconds. Every clock read inside
  one handler is one `now` parameter. "Today" means "at or after a
  `midnight` parameter".
- **Randomness.** The random draw `Math.floor(Math.random() * 1000)` of a
  transaction id is a `Draw` parameter in 0..999.
- **Tables.** A table is a `map<nat, Record>` with a counter. Ids are
  issued densely from 1 and never deleted. JavaScript `Map` iteration
  follows insertion order, so "all values" is the column of ids
  `1 .. next-1` (`Storage.Column`).
- **Sorting.** JavaScript's sort is stable. It is modelled by a stable
  insertion sort (`Seqs.SortDesc`).
- **Results.** Each handler is a function `Store × inputs → Store × Result`.
  The `Result` names which reply the handler gives: the rejection, or
  the records it made.
- **Invariants.** `Storage.WellFormed` is the schema's reference
  constraints plus dense ids. `Storage.Valid` adds the uniqueness of
  `discordId`. Uniqueness of `transactionId` is a separate predicate,
  `Storage.UniqueTransactionIds`, because the store never checks it (see
  below).

Behaviour of the code that a reader might not expect, and that the model
follows as written:

- `/pay` and `/order` call `ensureUser` before any funds or merchant
  check. A rejected payment or order can therefore still open accounts.
  `/pay` to oneself is rejected before that, so it changes nothing.
- The settlement timer calls `updateTransactionStatus(id, "completed")`
  without looking at the prior status. A transaction cancelled meanwhile
  would still be completed.
- `transactionId` is declared unique, but `MemStorage` does not enforce
  it. A generated id depends only on the last six digits of the clock and
  a draw of 0..999, so two ids can coincide (`Digits.TransactionIdCollision`).
- The order's transaction description falls back to
  `"Order from " + merchant.name`. The order's log entry uses the name
  the caller typed. The two agree because the lookup is by exact name.
- `createBotCommand` and `createTransaction` store `x || null`, so an
  empty string is stored as null (`Schema.OrNull`).

## Model

| member | source | states |
|---|---|---|
| Storage.Init | server/storage.ts:58-92 | the fresh store is valid with all other tables empty, and holds exactly five active merchants with ids 1..5, so the merchant counter starts at 6 |
| Storage.Seed | server/storage.ts:74-92 | seeding appends one active merchant per entry under consecutive ids, changes no existing merchant and no other table |
| Storage.UserByDiscordId | server/storage.ts:99-101 | a found user is stored and has that external id; nothing is found exactly when no stored user has it |
| Storage.UserByDiscordIdSpec | server/storage.ts:99-101 | in a well-formed store the lookup finds a user exactly when some stored user has that external id, and returns that stored record |
| Storage.CreateUser | server/storage.ts:103-113 | the new user is stored under the current counter, the counter moves on by one, the balance defaults to 0.00 when none is given, and no other table changes |
| Storage.CreateUserValid | server/storage.ts:103-113 | creating a user whose external id is new keeps the store valid and appends the user at the end of the listing |
| Storage.UpdateUserBalance | server/storage.ts:115-123 | only that user's balance changes; every other user and every other field is untouched; an unknown id changes nothing and yields no user |
| Storage.UpdateUserBalanceWellFormed | server/storage.ts:115-123 | setting a balance keeps the store well formed |
| Storage.MerchantByName | server/storage.ts:134-136 | a found merchant is stored and has that name; nothing is found exactly when no stored merchant has it |
| Storage.MerchantByNameSpec | server/storage.ts:134-136 | the lookup succeeds exactly when some stored merchant has that name, and returns the oldest such merchant |
| Storage.CreateMerchant | server/storage.ts:138-149 | the merchant is stored under the counter with the given name and category, stamped now; it is active unless told otherwise, and the description is kept when non-empty and stored as null otherwise |
| Storage.CreateMerchantWellFormed | server/storage.ts:138-149 | creating a merchant keeps the store well formed and appends it to the listing |
| Storage.TransactionByTransactionId | server/storage.ts:177-179 | a found transaction is stored and has that public id; nothing is found exactly when no stored transaction has it |
| Storage.TransactionByTransactionIdSpec | server/storage.ts:177-179 | with unique public ids, the lookup succeeds exactly when the id is stored and returns that one transaction |
| Storage.CreateTransaction | server/storage.ts:181-193 | the transaction is stored under the counter with createdAt equal to updatedAt, a missing or empty description becomes null, and only the transactions table changes |
| Storage.CreateTransactionWellFormed | server/storage.ts:181-193 | a transaction whose user and merchant exist keeps the store well formed and is appended to the listing |
| Storage.CreateTransactionUniqueIds | shared/schema.ts:24 | a transaction with a fresh public id keeps public ids unique |
| Storage.UpdateTransactionStatus | server/storage.ts:195-203 | only that transaction's status and updatedAt change, whatever its prior status; an unknown id changes nothing and yields none |
| Storage.UpdateTransactionStatusColumn | server/storage.ts:195-203 | in the listing, a status change replaces the transaction in its own place |
| Storage.UpdateTransactionStatusWellFormed | server/storage.ts:195-203 | a status change keeps the store well formed and keeps public ids unique |
| Storage.CreateBotCommand | server/storage.ts:243-254 | the log entry is stored under the counter and stamped now; empty parameters or response become null |
| Storage.CreateBotCommandWellFormed | shared/schema.ts:34-41 | a log entry whose user exists keeps the store well formed and is appended to the listing |
| Storage.CreateAlert | server/storage.ts:263-273 | the alert is stored under the counter, unread unless told otherwise, and only the alerts table changes |
| Storage.CreateAlertWellFormed | server/storage.ts:263-273 | creating an alert keeps the store well formed and appends it to the listing |
| Storage.MarkAlertAsRead | server/storage.ts:281-289 | only that alert's read flag is set; an unknown id changes nothing and yields none |
| Storage.MarkAlertAsReadIdempotent | server/storage.ts:281-289 | marking an alert read twice is marking it once, and keeps the store well formed |
| Views.NewestFirst | server/storage.ts:205-210 | the result holds min(limit, count) of the given transactions, newest first, each at most as often as given |
| Views.NewestFirstKeepsNewest | server/storage.ts:205-210 | nothing left out is newer than anything kept, and when the count is at most the limit every transaction is kept |
| Views.TransactionsByUserId | server/storage.ts:205-210 | only the user's stored transactions, newest first, at most the limit, 10 by default |
| ListingProofs.TransactionsByUserIdNewest | server/storage.ts:205-210 | exactly min(limit, count) of the user's transactions, a sub-multiset of them, with nothing left out newer than anything listed, and all of them when there are no more than the limit |
| Views.RecentTransactions | server/storage.ts:212-222 | exactly min(limit, count) of the stored transactions, 10 by default, newest first, none listed more often than stored |
| Views.RecentTransactionsNewest | server/storage.ts:212-222 | the listed transactions are a sub-multiset of the stored ones, nothing left out is newer than anything listed, and when the count is at most the limit every stored transaction is listed |
| Views.RecentTransactionsJoined | server/storage.ts:212-222 | in a well-formed store each listed transaction is joined with its stored user and merchant |
| Views.TotalVolume | server/storage.ts:224-228 | the volume is the sum of the amounts of the completed transactions, counting every other status as zero |
| Views.TotalTransactionCount | server/storage.ts:230-232 | in a store with dense transaction ids the count is the number listed, which is the last id issued |
| Views.TotalTransactionCountValid | server/storage.ts:230-232 | the count is the number of stored transactions, whatever their status, which is the last id issued |
| Views.FailedToday | server/storage.ts:234-240 | the failed-today count is at most the number of transactions |
| Views.FailedTodayCreate | server/storage.ts:234-240 | a new transaction adds one to the failed-today count exactly when it is failed and created at or after midnight |
| Views.FailedTodayUpdate | server/storage.ts:234-240 | a status change removes the transaction from the failed-today count if it counted and adds it if it now counts |
| Views.CommandsToday | server/storage.ts:256-260 | the commands-today count is at most the number of log entries |
| Views.CommandsTodayCreate | server/storage.ts:256-260 | a new log entry adds one to the commands-today count exactly when it runs at or after midnight |
| Views.RevenueTable | server/storage.ts:155-170 | each merchant's row holds the sum and the number of that merchant's completed transactions |
| Views.TopMerchants | server/storage.ts:155-170 | one row per stored merchant, with its completed revenue and order count, sorted by revenue, highest first |
| Views.TopMerchantsTiesInIdOrder | server/storage.ts:155-170 | merchants with equal revenue keep id order, since the sort is stable and the merchants are listed by id |
| Views.TopMerchantsEachOnce | server/storage.ts:155-170 | every stored merchant appears exactly once in the ranking |
| Views.TopMerchantsRows | server/storage.ts:155-170 | every row of the ranking belongs to a stored merchant and holds that merchant's figures |
| Views.TopMerchantsSumToVolume | server/storage.ts:155-170 | in a well-formed store the revenues of the ranking add up to the total volume |
| Views.UnreadAlerts | server/storage.ts:275-279 | exactly the unread alerts, each as often as stored, newest first |
| Views.UnreadAlertsExact | server/storage.ts:275-279 | in a well-formed store an alert is listed exactly when it is stored and unread |
| Digits.TransactionId | server/discord-bot.ts:126-134 | an id is "TX" followed by decimal digits only |
| Digits.TransactionIdShape | server/discord-bot.ts:126-134 | the id is "TX", then the last six digits of the clock, then the draw padded to three digits; both parts read back |
| Digits.TransactionIdCollision | server/discord-bot.ts:126-134 | two ids are equal exactly when the clocks agree modulo 1000000 and the draws agree |
| Digits.FormatMoneyRoundTrip | server/discord-bot.ts:454 | the two-decimal text of an amount reads back as the same number of cents |
| Digits.FormatNumberRoundTrip | server/discord-bot.ts:538 | the shortest decimal text of an amount reads back as the same number of cents |
| Digits.ElapsedSince | server/discord-bot.ts:137-150 | under a minute is "just now"; under an hour, whole minutes; under a day, whole hours; otherwise whole days, each rounded down |
| Digits.TimeAgo | server/discord-bot.ts:137-150 | the text is "just now" exactly when under a minute has passed, and otherwise ends in " ago" |
| Digits.TimeAgoReadsBack | server/discord-bot.ts:137-150 | the rendered text reads back as the same bucket and count |
| Bot.EnsureUser | server/discord-bot.ts:606-618 | only the users table changes, by at most one new account, and the account returned has the caller's external id |
| BotProofs.EnsureUserSpec | server/discord-bot.ts:606-618 | a known external id returns the stored account and changes nothing; an unknown one opens an account with the username and 1000.00, and only that |
| BotProofs.EnsureUsersDistinct | server/discord-bot.ts:409-410 | ensuring two different external ids yields two different stored accounts with their prior balances |
| BotProofs.EnsureUsersTotal | server/discord-bot.ts:409-410 | ensuring two accounts adds the starting balance once per account opened |
| BotProofs.IsDuplicateSound | server/discord-bot.ts:421-430 | a suspected duplicate always has a stored transaction of the sender with the same amount under 60000 ms old |
| BotProofs.IsDuplicateExact | server/discord-bot.ts:421-430 | when the sender has at most five transactions, a payment is suspected exactly when such a transaction is stored |
| BotProofs.DuplicateCheckOnInput | server/discord-bot.ts:409-430 | opening accounts first does not change the duplicate verdict: it depends only on the sender's existing transactions |
| Bot.Pay | server/discord-bot.ts:397-483 | a payment is refused as self-payment exactly when both parties are the same, and then nothing changes; a refused payment records no transaction and no log entry, and a made one raises no alert; merchants never change |
| Bot.Transfer | server/discord-bot.ts:413-483 | once both accounts exist, the payment is refused for funds exactly when the sender's balance is below the amount, and then nothing changes; it is never a self-payment |
| BotProofs.PaySelfChangesNothing | server/discord-bot.ts:401-407 | paying oneself is rejected and changes nothing, not even the accounts |
| BotProofs.PayInsufficientChangesNothing | server/discord-bot.ts:413-419 | a payment is refused for funds exactly when the sender's balance is below the amount; apart from opening accounts nothing changes |
| BotProofs.PayDuplicateOnlyAlerts | server/discord-bot.ts:421-446 | a suspected duplicate is refused; apart from opening accounts, its only change is one unread fraud warning alert |
| BotProofs.PayGoesThrough | server/discord-bot.ts:397-483 | a payment is made exactly when it is not to oneself, the sender can afford it, and it is not a suspected duplicate |
| BotProofs.PayBooksPayment | server/discord-bot.ts:449-474 | a payment records one completed transaction on merchant 1 under the sender, and one "pay" log entry, and raises no alert |
| BotProofs.PayMovesAmount | server/discord-bot.ts:459-467 | a payment debits the sender and credits the recipient by the amount |
| BotProofs.PayConservesMoney | server/discord-bot.ts:397-483 | the money in all accounts changes only by the starting balances of accounts opened |
| BotProofs.PayLeavesOthersAlone | server/discord-bot.ts:397-483 | every account other than the sender's and the recipient's is unchanged |
| BotProofs.PayKeepsValid | server/discord-bot.ts:397-483 | every outcome of `/pay` keeps the store valid |
| BotProofs.PayKeepsBalancesNonNegative | server/discord-bot.ts:413-467 | no payment makes a balance negative |
| BotProofs.TransferMovesAmount | server/discord-bot.ts:413-467 | after the accounts are ensured, only a successful payment changes balances, by the amount each way |
| BotProofs.TransferKeepsTotal | server/discord-bot.ts:459-467 | debit and credit together keep the money in all accounts |
| Bot.Order | server/discord-bot.ts:485-548 | a refused order changes nothing but opening the caller's account; merchants and alerts never change; the refusal reports the inactive merchant or the low balance |
| Bot.PlaceOrder | server/discord-bot.ts:491-540 | once the caller's account exists, the order is refused as unknown, inactive or too expensive each exactly under its condition, and then nothing changes |
| OrderProofs.OrderOutcomes | server/discord-bot.ts:491-516 | an unknown name, an inactive merchant, a low balance, or an order placed, each exactly under its condition |
| OrderProofs.OrderRefusalChangesNothing | server/discord-bot.ts:491-516 | a refused order changes nothing apart from opening the caller's account |
| OrderProofs.OrderBooksPending | server/discord-bot.ts:518-540 | an order records one pending transaction against the named merchant under the caller, and one "order" log entry |
| OrderProofs.PlaceOrderRecords | server/discord-bot.ts:518-540 | the order's description is the one given or "Order from " and the merchant's name, and the log names the order |
| Bot.OrderDescription | server/discord-bot.ts:526 | a non-empty description is kept, and a missing or empty one becomes "Order from " and the merchant's name |
| OrderProofs.OrderDebitsCaller | server/discord-bot.ts:529-533 | an order debits the caller by the amount, and the money in all accounts falls by it |
| OrderProofs.OrderKeepsValid | server/discord-bot.ts:485-548 | every outcome of `/order` keeps the store valid |
| OrderProofs.OrderKeepsBalancesNonNegative | server/discord-bot.ts:509-533 | no order makes a balance negative |
| Bot.Settle | server/discord-bot.ts:542-548 | settlement replaces that transaction by itself completed and stamped now, whatever its prior status, keeps the ids and the counter, and leaves every other record alone |
| SettleProofs.SettleIdempotent | server/discord-bot.ts:542-548 | settling twice is settling once |
| SettleProofs.SettleKeepsValid | server/discord-bot.ts:542-548 | settlement keeps the store valid and keeps public ids unique |
| SettleProofs.SettleVolume | server/storage.ts:224-228 | settling a transaction that was not completed adds its amount to the volume; otherwise the volume is unchanged |
| SettleProofs.PayVolume | server/storage.ts:224-228 | a payment counts in the volume as soon as it is made |
| SettleProofs.OrderVolume | server/storage.ts:224-228 | an order does not count in the volume until it is settled |
| SettleProofs.OrderThenSettleVolume | server/discord-bot.ts:518-548 | once an order is settled, the volume has grown by its amount |
| Bot.HistoryLimit | server/discord-bot.ts:278 | the limit given, or 5 when none or zero is given |
| Bot.History | server/discord-bot.ts:276-288 | `/history` lists at most the limit of the target's own transactions, newest first, and changes no transaction, merchant or alert |
| ListingProofs.HistoryListsNewest | server/discord-bot.ts:276-281 | `/history` shows the target's account and its newest transactions, a sub-multiset of them, at most the limit, all of them when there are no more |
| ListingProofs.HistoryOnlyLogs | server/discord-bot.ts:276-288 | `/history` changes nothing but opening the target's account and one "history" log entry |
| Bot.ListMerchants | server/discord-bot.ts:343-355 | `/merchants` lists exactly the active stored merchants and changes no transaction, merchant or alert |
| ListingProofs.ListMerchantsExact | server/discord-bot.ts:343-348 | `/merchants` lists exactly the active stored merchants, in id order |
| ListingProofs.ListMerchantsOnlyLogs | server/discord-bot.ts:343-355 | `/merchants` changes nothing but opening the caller's account and one "merchants" log entry, with the count and no parameters |

## Left out

- Discord plumbing is not modelled: the client, command registration,
  embeds, replies and dispatch. Only the state each handler changes is
  modelled, and the result datatypes name which reply it gives.
- The `/balance`, `/transaction` and `/help` handlers are not part of
  this model. `/balance` opens the account of the user it names (the
  caller by default) inline with 1000.00 and logs under that account;
  `/transaction` and `/help` can open the caller's account through
  `ensureUser`. Each reads the store and writes one log entry.
- `server/routes.ts`, the client pages and `scripts/seed.ts` are not part
  of this model. They forward to the store, render it, or do database I/O.
- The source's floating-point arithmetic (`parseFloat`, `toFixed`) is not
  modelled. Money is exact integer cents.
- Sub-cent amounts are not modelled. The options' minimum of 0.01 still
  lets a caller type 0.015, which the source carries as a float and
  rounds only when it prints or stores it with `toFixed(2)`.
  `PositiveCents` admits whole cents only.
- Views.TransactionsByUserId and Views.RecentTransactions: the limit is a
  `nat`. A negative limit, which `server/routes.ts:32` and `:54` can pass
  from the query string, makes `slice(0, limit)` drop elements from the
  end instead; that case is not modelled.
- The `decimal(10, 2)` column range is not enforced. `MemStorage` never
  checks it, so cents are unbounded.
- The bot reads the clock, the random draw and the settlement delay;
  these become the parameters `now`, `draw` and `later`. The store's
  `getFailedTransactionsToday` and `getCommandsToday` read local
  midnight; it becomes the parameter `midnight`. How local midnight is
  computed is not modelled.
- Concurrency is not modelled. That covers the interleaving of handlers
  at `await` points, the lost-update race between reading a balance and
  writing it back, the real `setTimeout` delay and the `setInterval`
  presence update. Settlement is an explicit later step, `Bot.Settle`.
- Collisions of generated transaction ids are not modelled. The store
  does not check them. `Digits.TransactionIdCollision` states when two
  ids coincide, and `Storage.CreateTransactionUniqueIds` assumes a fresh
  one.
- `getUser`, `getMerchant`, `getTransaction`, `getAllUsers` and
  `getAllMerchants` are single expressions (`Storage.GetUser`,
  `Storage.AllMerchants`, …) with no row of their own. Their properties
  are stated by the lemmas that use them.
- Views.FailedToday: its own contract bounds the count only by the
  number of transactions. Its exact behaviour is stated by
  `Views.FailedTodayCreate` and `Views.FailedTodayUpdate`.
- Views.CommandsToday: its own contract bounds the count only by the
  number of log entries. Its exact behaviour is stated by
  `Views.CommandsTodayCreate`.
- Bot.EnsureUser: its own contract states only the frame and the
  external id. The full behaviour is in `BotProofs.EnsureUserSpec`.
- Storage.UserByDiscordId, Storage.MerchantByName and
  Storage.TransactionByTransactionId: their own contracts do not say which
  match is returned. That it is the oldest, or the only one, is stated by
  the `…Spec` lemmas next to them.
- Digits.TransactionId: its own contract states only the prefix and that
  the rest is digits. The exact layout is in `Digits.TransactionIdShape`.
- Digits.TimeAgo: its own contract separates only "just now" from the
  rest. The bucket and count are in `Digits.ElapsedSince` and
  `Digits.TimeAgoReadsBack`.
- Bot.Pay and Bot.Transfer: their own contracts state the refusals and
  the frame. The duplicate check, the booking and the balance moves are
  in the `BotProofs` lemmas.
- Bot.Order and Bot.PlaceOrder: their own contracts state the refusals
  and the frame. The booking and the debit are in the `OrderProofs`
  lemmas.
- Bot.History and Bot.ListMerchants: their own contracts state the
  listing's shape and the frame. That the newest are kept and what is
  logged is in the `ListingProofs` lemmas.
- BotProofs.IsDuplicateExact: with more than five transactions of the
  sender, only soundness is stated (`BotProofs.IsDuplicateSound`). An
  older matching transaction beyond the five newest is not found.
- Digits.TransactionIdShape: stated only for clock readings from 100000 ms
  on, where the clock text has at least six digits. Any real clock is far
  past that. `Digits.TransactionIdCollision` has the same precondition.
- Log-entry texts are not fully stated. The `parameters` and `response`
  texts of the `/pay`, `/order` and `/history` log entries are modelled
  as written, but the contracts state only the command name, the user and
  the `/order` response. The money text they embed is covered by the
  formatting round trips.
