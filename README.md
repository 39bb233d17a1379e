# Account ledger of the digicur balance-transfer service

This project models the ledger behind the service's login, balance and
transfer endpoints. The `users` table is modelled as a map from username to a
row that holds a password hash and an integer balance. Four operations act on it:

- `create_user` inserts a row. It is `Ledger.UserTable.CreateUser`, a method that updates the table in place.
- `authenticate_user` looks a user up and checks the password against the
  stored hash. It is `Ledger.Authenticate`, a function of the table's contents.
- `get_balance` looks a user up. It is `Ledger.GetBalance`, a function of the table's contents.
- `transfer_funds` reads both rows, checks the guard, computes both new
  balances, then runs two `UPDATE`s, sender first and receiver second. It is
  `Ledger.UserTable.TransferFunds`, built from `Ledger.UserTable.UpdateBalance`
  (one `UPDATE ... SET balance = ? WHERE username = ?`). It is proved against
  the specification function `Ledger.Transfer`, and the properties of a
  transfer are lemmas about that function in `LedgerProperties`.

The password-hashing library is a `Hasher` value that each call receives. It
holds `hash(password, salt)` and `check(stored, password)`. The salt is a
parameter because the library picks it at random. Two assumptions about the
library appear as explicit `requires` on the lemmas that need them:
`Sound` (a hash verifies the password it was made from) and `Exact` (it
verifies no other password). `Exact` describes an idealised, collision-free
hasher: a real fixed-length hash over unbounded strings has collisions, so
`CreateThenAuthenticateOther` holds only for that idealisation.

Every balance reaches the table through sqlite's parameter binding
(server.py:26, 57, 58), which accepts a Python integer only in the signed
64-bit range; the column type itself is not part of this model. Binding an
integer outside that range raises `OverflowError` before the commit, so the
call changes nothing. The model computes with unbounded integers, as Python
does, and checks each balance it writes against the 64-bit range: `Outcome`
is either the value a call returns or `Overflow`. `UserTable.Valid()` says
every stored balance is in range, and every method of the table, including
the single `UPDATE` step, keeps it.

Two consequences of the code as written are proved rather than hidden:

- A self-transfer (sender and receiver the same user) that passes the guard
  leaves the account at `old + amount`. The receiver's new balance is computed
  from the row read before the sender's write, and it is written last. The
  total of all balances then grows by `amount`.
- The guard has no lower bound on the amount. A negative amount passes
  whenever the sender's balance is at least that amount, which is always the
  case while no balance is negative. It then debits the receiver, who can go
  below zero. A large enough negative amount
  instead overflows the sender's new balance and raises `OverflowError`.

Files: `ledger.dfy` (module `Ledger`: data model, operations, the table class)
and `ledger_properties.dfy` (modules `LedgerProperties`, with the lemmas, and
`LedgerScenarios`, which drives the table class).

## Model

| member | source | states |
|---|---|---|
| `Ledger.Lookup` | server.py:50-51 | a row is found exactly when the username is in the table, and it is the stored row (the same `SELECT ... WHERE username = ?` as at server.py:32 and 41) |
| `Ledger.Authenticate` | server.py:30-36 | login succeeds exactly when the user exists and the password checks against the stored hash; on success the answer carries the stored balance; on every failure it is the same `Authentication failed` answer with no balance; the table is only read |
| `Ledger.GetBalance` | server.py:39-45 | for an existing user the stored balance and no message; for an unknown user an absent balance and `User not found`; the table is only read |
| `Ledger.Transfer` | server.py:48-62 | no outcome of a transfer adds or removes a user, and every outcome other than success leaves the table exactly as it was |
| `Ledger.UserTable.CreateUser` | server.py:23-27 | for a username not yet in the table and a balance within 64 bits, adds exactly one row holding the hash of the password and the given balance and keeps every earlier row; a balance outside 64 bits raises `OverflowError` and inserts nothing; stored balances stay within 64 bits |
| `Ledger.UserTable.UpdateBalance` | server.py:57-58 | sets the balance of the named row and nothing else; a missing row leaves the table unchanged; a balance outside 64 bits cannot be bound, is reported, and changes nothing; every stored balance stays within 64 bits |
| `Ledger.UserTable.TransferFunds` | server.py:48-62 | succeeds exactly when both users exist, the sender's stored balance is at least `amount` and both new balances fit 64 bits; the new table and the outcome are exactly those of `Transfer` on the old table, so both writes use balances read before either write, the receiver's write comes last, and an overflow in either write leaves nothing written |
| `LedgerProperties.TransferSucceedsIff` | server.py:53-59 | a transfer succeeds if and only if sender and receiver exist, the sender's balance is at least `amount`, and both new balances fit 64 bits |
| `LedgerProperties.TransferFailureUnchanged` | server.py:53-62 | when the guard fails the table is unchanged and the answer is `{success: false, "Insufficient funds or invalid user"}`, the same for a missing user and for insufficient funds |
| `LedgerProperties.TransferOverflowUnchanged` | server.py:53-59 | when the guard passes but the sender's or the receiver's new balance falls outside 64 bits, the transfer raises `OverflowError` and the table is unchanged |
| `LedgerProperties.CreditOverflowRaises` | server.py:53-59 | alice 10 and bob at 2^63-1: transferring 1 raises `OverflowError` and changes nothing |
| `LedgerProperties.TransferKeepsStored` | server.py:53-59 | whatever its outcome, a transfer keeps every stored balance within 64 bits |
| `LedgerProperties.TransferMoves` | server.py:53-60 | a successful transfer between different users sets the sender's balance to `old - amount` and the receiver's to `old + amount`, as a balance query then reports; no user is added or removed, no password hash changes, every other row is unchanged |
| `LedgerProperties.TransferConserves` | server.py:53-62 | a transfer between different users keeps the sum of all balances, whatever its outcome |
| `LedgerProperties.SelfTransferCredits` | server.py:51-58 | a successful transfer from a user to the same user leaves that user at `old + amount` and raises the sum of all balances by `amount` |
| `LedgerProperties.TransferKeepsNonNegative` | server.py:53-58 | with `amount >= 0`, a transfer from a table with no negative balance leaves no negative balance, for any sender and receiver |
| `LedgerProperties.NegativeAmountOverdrawsReceiver` | server.py:53-55 | a negative amount passes the guard when the sender's balance is at least that amount: alice 100, bob 50, `amount = -1000` succeeds and leaves bob at -950, breaking the no-negative-balance invariant |
| `LedgerProperties.TransferBackRestores` | server.py:53-58 | a successful transfer between different users is undone by transferring the same amount back, which succeeds whenever the receiver's balance was not negative (the reverse transfer's new balances are the old stored ones, so it cannot overflow) |
| `LedgerProperties.CreateAddsBalance` | server.py:23-27 | creating a user adds exactly its initial balance to the sum of all balances |
| `LedgerProperties.CreateThenGetBalance` | server.py:23-27 | after a user is created, a balance query for it returns the balance it was created with |
| `LedgerProperties.CreateThenAuthenticate` | server.py:23-36 | with a sound hasher, a user created with password `p` logs in with `p` and sees the initial balance |
| `LedgerProperties.CreateThenAuthenticateOther` | server.py:23-36 | with an exact hasher, a user created with password `p` cannot log in with any other password, and the answer is the generic failure |
| `LedgerProperties.UnknownUserLikeWrongPassword` | server.py:32-36 | an unknown username and a known username with a wrong password get identical login answers |
| `LedgerScenarios.AliceAndBob` | server.py:23-62 | alice 100 and bob 50: transferring 30 succeeds and leaves 70 and 80; then transferring 1000 fails and leaves both balances as they were |
| `LedgerScenarios.RegisterThenLogin` | server.py:23-36 | on the in-place table, creating a user with a balance within 64 bits inserts exactly that row, and logging in with the same password then succeeds with the initial balance; with a balance outside 64 bits the table is unchanged and the login fails |

## Left out

- The HTTP routes `login`, `get_balance_route` and `transfer` (server.py:66-88) and JSON decoding and encoding. They are framework glue. An absent request field is a framework error, not ledger behaviour.
- `get_db`, `init_db` and loading the schema script (server.py:9-20), and the commits (server.py:14, 27, 59). These are connection handling, transactions and file I/O. A call that raises before its commit is modelled as changing nothing. The constructor of `UserTable` stands for a freshly initialised, empty table.
- Duplicate usernames in `create_user`. The schema file is not part of this model, so the uniqueness constraint is not visible. `CreateUser` therefore requires that the username is new rather than modelling an insert error.
- The password-hashing library's algorithm. It is a parameter (`Hasher`). The properties that depend on it take `Sound` or `Exact` as an explicit assumption.
- Concurrency. That covers the lost update between concurrent transfers. The model is sequential.
- Storage faults such as disk or I/O errors. Apart from the `OverflowError` of a balance outside 64 bits, the model's store never fails.
- Non-integer amounts and balances that could arrive from JSON. Amounts are integers of any size, as in Python; only the balances written to the table are bounded to 64 bits.
