/**
  The account ledger of the balance-transfer service: one `users` table that
  maps a username to its password hash and balance, and the four operations
  on it (create a user, authenticate, query a balance, transfer funds).

  The relational store is modelled by the map it holds; a `SELECT ... WHERE
  username = ?` is `Lookup`, an `UPDATE ... SET balance = ?` is
  `UserTable.UpdateBalance`, an `INSERT` is `UserTable.CreateUser`.
 */
module Ledger {

  datatype Option<T> = None | Some(value: T)

  /** One row of the `users` table; the username is its key in `Table`. */
  datatype User = User(passwordHash: string, balance: int)

  type Table = map<string, User>

  /** The signed 64-bit range, the only integers sqlite's parameter binding accepts. */
  const MinInt64 := -0x8000_0000_0000_0000
  const MaxInt64 := 0x7fff_ffff_ffff_ffff

  predicate IsInt64(x: int) {
    MinInt64 <= x <= MaxInt64
  }

  /** Every stored balance is in the 64-bit range, since only such balances can be bound and written. */
  ghost predicate Stored(users: Table) {
    forall u :: u in users ==> IsInt64(users[u].balance)
  }

  /**
    How a call ends: with the value it returns, or with the OverflowError
    that sqlite's parameter binding raises when a balance is outside the
    64-bit range. The error escapes before the commit, so nothing of the call
    reaches the table.
   */
  datatype Outcome<T> = Returned(value: T) | Overflow

  /**
    The password-hashing library, which is not part of this model:
    `hash(password, salt)` produces the stored hash (the salt stands for the
    library's randomness) and `check(stored, password)` verifies a password
    against a stored hash.
   */
  datatype Hasher = Hasher(hash: (string, string) -> string, check: (string, string) -> bool)

  /** A stored hash always verifies the password it was made from. */
  ghost predicate Sound(h: Hasher) {
    forall password, salt :: h.check(h.hash(password, salt), password)
  }

  /** A stored hash verifies no password other than the one it was made from. */
  ghost predicate Exact(h: Hasher) {
    forall password, salt, other :: h.check(h.hash(password, salt), other) ==> other == password
  }

  // The result records the service returns (its JSON bodies).

  /** `balance` is present only when `authenticated` holds. */
  datatype AuthResult = AuthResult(authenticated: bool, message: string, balance: Option<int>)

  /** `message` is present only when the user was not found. */
  datatype BalanceResult = BalanceResult(balance: Option<int>, message: Option<string>)

  datatype TransferResult = TransferResult(success: bool, message: string)

  const AuthOk := "Authentication successful"
  const AuthFailedMessage := "Authentication failed"
  const UserNotFound := "User not found"
  const TransferOk := "Funds transferred successfully"
  const TransferFailedMessage := "Insufficient funds or invalid user"

  /** The one failure answer of authentication, whatever the cause. */
  const AuthFailed := AuthResult(false, AuthFailedMessage, None)

  /** The one failure answer of a transfer, whatever the cause. */
  const TransferFailed := TransferResult(false, TransferFailedMessage)

  /** The row stored under `username`, if any. */
  function Lookup(users: Table, username: string): (r: Option<User>)
    ensures r.Some? <==> username in users
    ensures r.Some? ==> r.value == users[username]
  {
    if username in users then Some(users[username]) else None
  }

  /**
    Authentication: it succeeds exactly when the user exists and the password
    verifies against the stored hash, and then reports the stored balance; an
    unknown user and a wrong password give one and the same answer.
   */
  function Authenticate(users: Table, h: Hasher, username: string, password: string): (r: AuthResult)
    ensures r.authenticated <==> username in users && h.check(users[username].passwordHash, password)
    ensures r.authenticated ==> r.message == AuthOk && r.balance == Some(users[username].balance)
    ensures !r.authenticated ==> r == AuthFailed
  {
    match Lookup(users, username)
    case Some(user) =>
      if h.check(user.passwordHash, password) then AuthResult(true, AuthOk, Some(user.balance))
      else AuthFailed
    case None => AuthFailed
  }

  /** Balance query: the stored balance, or an absent balance and "User not found". */
  function GetBalance(users: Table, username: string): (r: BalanceResult)
    ensures r.balance.Some? <==> username in users
    ensures username in users ==> r.balance.value == users[username].balance && r.message == None
    ensures username !in users ==> r.message == Some(UserNotFound)
  {
    match Lookup(users, username)
    case Some(user) => BalanceResult(Some(user.balance), None)
    case None => BalanceResult(None, Some(UserNotFound))
  }

  /** The guard of a transfer: both users exist and the sender's balance covers `amount`. */
  predicate CanTransfer(users: Table, sender: string, receiver: string, amount: int) {
    sender in users && receiver in users && users[sender].balance >= amount
  }

  /** Both new balances of a transfer that passed its guard are in the 64-bit range. */
  predicate Fits(users: Table, sender: string, receiver: string, amount: int)
    requires CanTransfer(users, sender, receiver, amount)
  {
    IsInt64(users[sender].balance - amount) && IsInt64(users[receiver].balance + amount)
  }

  /**
    The outcome of a transfer, stated by what each row ends up holding. Both
    new balances are computed from the rows as read before either write, and
    the receiver's row is written last, so when sender and receiver are the
    same user the receiver's new balance is the one that remains. A new
    balance outside the 64-bit range raises an OverflowError and leaves the
    table as it was.
   */
  function Transfer(users: Table, sender: string, receiver: string, amount: int): (r: (Table, Outcome<TransferResult>))
    ensures r.0.Keys == users.Keys
    ensures r.1 != Returned(TransferResult(true, TransferOk)) ==> r.0 == users
  {
    if !CanTransfer(users, sender, receiver, amount) then
      (users, Returned(TransferFailed))
    else if !Fits(users, sender, receiver, amount) then
      (users, Overflow)
    else
      var credited := users[receiver].balance + amount;
      var debited := users[sender].balance - amount;
      (map u | u in users ::
         if u == receiver then users[u].(balance := credited)
         else if u == sender then users[u].(balance := debited)
         else users[u],
       Returned(TransferResult(true, TransferOk)))
  }

  /** The `users` table, updated in place by inserts and balance updates. */
  class UserTable {
    var users: Table

    ghost predicate Valid()
      reads this
    {
      Stored(users)
    }

    /** A freshly initialised, empty table. */
    constructor ()
      ensures Valid() && users == map[]
    {
      users := map[];
    }

    /**
      Inserts a user whose stored hash is made from `password` and `salt`.
      Usernames are unique, so the caller must not reuse one. A balance that
      is outside the 64-bit range raises an OverflowError and inserts nothing.
     */
    method CreateUser(h: Hasher, username: string, password: string, salt: string, balance: int)
        returns (r: Outcome<()>)
      requires Valid() && username !in users
      modifies this
      ensures Valid()
      ensures r == Overflow <==> !IsInt64(balance)
      ensures r == Overflow ==> users == old(users)
      ensures r != Overflow ==> users == old(users)[username := User(h.hash(password, salt), balance)]
    {
      var hashedPassword := h.hash(password, salt);
      if IsInt64(balance) {
        users := users[username := User(hashedPassword, balance)];
        r := Returned(());
      } else {
        r := Overflow;
      }
    }

    /**
      Sets the balance of the row of `username`; no row, no change. A balance
      outside the 64-bit range cannot be bound: `ok` is false and
      nothing changes.
     */
    method UpdateBalance(username: string, balance: int) returns (ok: bool)
      requires Valid()
      modifies this
      ensures Valid()
      ensures ok <==> IsInt64(balance)
      ensures ok && username in old(users) ==> users == old(users)[username := old(users)[username].(balance := balance)]
      ensures !ok || username !in old(users) ==> users == old(users)
    {
      ok := IsInt64(balance);
      if ok && username in users {
        users := users[username := users[username].(balance := balance)];
      }
    }

    /**
      Reads both rows, checks the guard, computes both new balances, then
      writes the sender's row and after it the receiver's row. When either
      write raises an OverflowError the commit is never reached, and sqlite
      discards the uncommitted first write.
     */
    method TransferFunds(sender: string, receiver: string, amount: int) returns (r: Outcome<TransferResult>)
      requires Valid()
      modifies this
      ensures Valid()
      ensures r == Returned(TransferResult(true, TransferOk))
          <==> CanTransfer(old(users), sender, receiver, amount) && Fits(old(users), sender, receiver, amount)
      ensures (users, r) == Transfer(old(users), sender, receiver, amount)
    {
      var senderInfo := Lookup(users, sender);
      var receiverInfo := Lookup(users, receiver);
      if senderInfo.Some? && receiverInfo.Some? && senderInfo.value.balance >= amount {
        var newSenderBalance := senderInfo.value.balance - amount;
        var newReceiverBalance := receiverInfo.value.balance + amount;
        var committed := users;
        var ok := UpdateBalance(sender, newSenderBalance);
        if ok {
          ok := UpdateBalance(receiver, newReceiverBalance);
        }
        if ok {
          r := Returned(TransferResult(true, TransferOk));
          ghost var expected := Transfer(old(users), sender, receiver, amount).0;
          assert users.Keys == expected.Keys;
          assert forall u :: u in users ==> users[u] == expected[u];
          assert users == expected;
        } else {
          users := committed;
          r := Overflow;
        }
      } else {
        r := Returned(TransferFailed);
      }
    }
  }
}
