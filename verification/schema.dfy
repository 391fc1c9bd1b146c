/**
  The five tables of the ledger (users, merchants, transactions,
  bot_commands, alerts) as records, with the insert shapes the store
  accepts and the closed value sets the columns' comments name.
  Money columns are decimal(10, 2): whole cents here.
*/
module Schema {
  import opened Options

  /** Milliseconds since the Unix epoch (`Date.getTime()`). */
  type Time = nat

  /** A decimal(10, 2) amount as a whole number of cents; signed, as the column is. */
  type Cents = int

  /** A slash-command amount: the options' minimum is 0.01. */
  type PositiveCents = c: int | c >= 1 witness 1

  /** The "0.00" default of users.balance. */
  const DefaultBalance: Cents := 0

  /** The "1000.00" every account created by the bot starts with. */
  const StartingBalance: Cents := 100000

  /** Peer payments are booked against merchant 1. */
  const PeerMerchantId: nat := 1

  datatype Status = Pending | Completed | Cancelled | Failed
  datatype AlertType = Fraud | HighVolume | SystemAlert
  datatype Severity = Info | Warning | Error

  datatype User = User(id: nat, discordId: string, username: string, balance: Cents, createdAt: Time)

  datatype Merchant = Merchant(
    id: nat, name: string, category: string, description: Option<string>,
    isActive: bool, createdAt: Time)

  datatype Transaction = Transaction(
    id: nat, transactionId: string, userId: nat, merchantId: nat, amount: Cents,
    status: Status, description: Option<string>, createdAt: Time, updatedAt: Time)

  datatype BotCommand = BotCommand(
    id: nat, commandName: string, userId: nat, parameters: Option<string>,
    response: Option<string>, executedAt: Time)

  datatype Alert = Alert(
    id: nat, kind: AlertType, message: string, severity: Severity, isRead: bool, createdAt: Time)

  // Insert shapes: every column except the serial id and the timestamps.

  datatype NewUser = NewUser(discordId: string, username: string, balance: Option<Cents>)

  datatype NewMerchant = NewMerchant(
    name: string, category: string, description: Option<string>, isActive: Option<bool>)

  datatype NewTransaction = NewTransaction(
    transactionId: string, userId: nat, merchantId: nat, amount: Cents,
    status: Status, description: Option<string>)

  datatype NewBotCommand = NewBotCommand(
    commandName: string, userId: nat, parameters: Option<string>, response: Option<string>)

  datatype NewAlert = NewAlert(kind: AlertType, message: string, severity: Severity, isRead: Option<bool>)

  /**
    JavaScript's `text || fallback` on an optional text column: both a
    missing value and the empty string are falsy.
  */
  function OrNull(t: Option<string>): (r: Option<string>)
    ensures r.Some? <==> t.Some? && t.value != ""
    ensures r.Some? ==> r == t
  {
    if t.Some? && t.value != "" then t else None
  }
}
