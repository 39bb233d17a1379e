/**
  What the ledger's operations promise: the effect of a transfer on each row,
  conservation of the total balance, the self-transfer that credits instead
  of leaving the account alone, non-negative balances, the collapsed failure
  answers, and the round trip from creating a user to logging in.
 */
module LedgerProperties {
  import opened Ledger

  /** Some key of a non-empty set, chosen once and for all. */
  ghost function Pick(keys: set<string>): (k: string)
    requires keys != {}
    ensures k in keys
  {
    var k :| k in keys; k
  }

  /** The sum of all balances in the table. */
  ghost function Total(users: Table): (s: int)
    decreases users.Keys
  {
    if users == map[] then 0
    else
      var u := Pick(users.Keys);
      users[u].balance + Total(users - {u})
  }

  /** The intended invariant of the ledger: no balance is negative. */
  ghost predicate NonNegative(users: Table) {
    forall u :: u in users ==> users[u].balance >= 0
  }

  /** Any row, not only the one `Total` picks, can be taken out of the sum. */
  lemma {:induction false} TotalRemove(users: Table, u: string)
    requires u in users
    ensures Total(users) == users[u].balance + Total(users - {u})
    decreases users.Keys
  {
    var v := Pick(users.Keys);
    if v != u {
      TotalRemove(users - {v}, u);
      TotalRemove(users - {u}, v);
      assert users - {v} - {u} == users - {u} - {v};
    }
  }

  /** Overwriting one row changes the sum by the change of that row's balance. */
  lemma TotalUpdate(users: Table, u: string, row: User)
    requires u in users
    ensures Total(users[u := row]) == Total(users) - users[u].balance + row.balance
  {
    TotalRemove(users[u := row], u);
    TotalRemove(users, u);
    assert users[u := row] - {u} == users - {u};
  }

  /**
    A transfer succeeds exactly when both users exist, the sender's balance
    covers the amount and both new balances are in the 64-bit range.
   */
  lemma TransferSucceedsIff(users: Table, sender: string, receiver: string, amount: int)
    ensures Transfer(users, sender, receiver, amount).1 == Returned(TransferResult(true, TransferOk))
        <==> && sender in users && receiver in users && users[sender].balance >= amount
             && IsInt64(users[sender].balance - amount) && IsInt64(users[receiver].balance + amount)
  {
  }

  /**
    A failed transfer changes nothing and gives the one generic answer, so a
    missing user and insufficient funds cannot be told apart.
   */
  lemma TransferFailureUnchanged(users: Table, sender: string, receiver: string, amount: int)
    requires !CanTransfer(users, sender, receiver, amount)
    ensures Transfer(users, sender, receiver, amount) == (users, Returned(TransferFailed))
  {
  }

  /**
    A transfer that passes the guard but whose new balance for the sender or
    the receiver falls outside the 64-bit range raises an OverflowError and
    leaves the table unchanged.
   */
  lemma TransferOverflowUnchanged(users: Table, sender: string, receiver: string, amount: int)
    requires CanTransfer(users, sender, receiver, amount)
    requires !IsInt64(users[sender].balance - amount) || !IsInt64(users[receiver].balance + amount)
    ensures Transfer(users, sender, receiver, amount) == (users, Overflow)
  {
  }

  /** Alice 10, Bob at the largest 64-bit integer: moving 1 to Bob overflows and changes nothing. */
  lemma CreditOverflowRaises()
    ensures var users := map["alice" := User("h1", 10), "bob" := User("h2", 0x7fff_ffff_ffff_ffff)];
      Transfer(users, "alice", "bob", 1) == (users, Overflow)
  {
  }

  /** Every outcome of a transfer keeps every stored balance in the 64-bit range. */
  lemma TransferKeepsStored(users: Table, sender: string, receiver: string, amount: int)
    requires Stored(users)
    ensures Stored(Transfer(users, sender, receiver, amount).0)
  {
  }

  /**
    A successful transfer between two different users debits the sender and
    credits the receiver by exactly `amount`, as a later balance query shows,
    and leaves every password hash and every other user's row alone.
   */
  lemma TransferMoves(users: Table, sender: string, receiver: string, amount: int)
    requires CanTransfer(users, sender, receiver, amount) && Fits(users, sender, receiver, amount)
    requires sender != receiver
    ensures var (after, r) := Transfer(users, sender, receiver, amount);
      && r == Returned(TransferResult(true, TransferOk))
      && after.Keys == users.Keys
      && GetBalance(after, sender).balance == Some(users[sender].balance - amount)
      && GetBalance(after, receiver).balance == Some(users[receiver].balance + amount)
      && (forall u :: u in users ==> after[u].passwordHash == users[u].passwordHash)
      && (forall u :: u in users && u != sender && u != receiver ==> after[u] == users[u])
  {
  }

  /** A transfer between two different users keeps the sum of all balances, whatever its outcome. */
  lemma TransferConserves(users: Table, sender: string, receiver: string, amount: int)
    requires sender != receiver
    ensures Total(Transfer(users, sender, receiver, amount).0) == Total(users)
  {
    if !CanTransfer(users, sender, receiver, amount) || !Fits(users, sender, receiver, amount) {
      return;
    }
    var debited := users[sender := users[sender].(balance := users[sender].balance - amount)];
    var both := debited[receiver := users[receiver].(balance := users[receiver].balance + amount)];
    TotalUpdate(users, sender, debited[sender]);
    TotalUpdate(debited, receiver, both[receiver]);
    assert Transfer(users, sender, receiver, amount).0 == both;
  }

  /**
    A successful transfer from a user to that same user credits the account
    with `amount` instead of leaving it unchanged: the receiver's write, made
    from the balance read before the sender's write, is the one that remains.
    The sum of all balances grows by `amount`.
   */
  lemma SelfTransferCredits(users: Table, user: string, amount: int)
    requires CanTransfer(users, user, user, amount) && Fits(users, user, user, amount)
    ensures var (after, r) := Transfer(users, user, user, amount);
      && r == Returned(TransferResult(true, TransferOk))
      && GetBalance(after, user).balance == Some(users[user].balance + amount)
      && Total(after) == Total(users) + amount
  {
    var row := users[user].(balance := users[user].balance + amount);
    var after := Transfer(users, user, user, amount).0;
    assert after.Keys == users.Keys;
    assert after == users[user := row];
    TotalUpdate(users, user, row);
  }

  /** With a non-negative amount, a transfer never makes a balance negative. */
  lemma TransferKeepsNonNegative(users: Table, sender: string, receiver: string, amount: int)
    requires NonNegative(users) && amount >= 0
    ensures NonNegative(Transfer(users, sender, receiver, amount).0)
  {
  }

  /**
    The guard has no lower bound on the amount: a negative amount passes
    whenever the sender's balance is at least that amount, and the receiver
    is then debited, below zero here.
   */
  lemma NegativeAmountOverdrawsReceiver()
    ensures var users := map["alice" := User("h1", 100), "bob" := User("h2", 50)];
      var (after, r) := Transfer(users, "alice", "bob", -1000);
      && NonNegative(users)
      && r == Returned(TransferResult(true, TransferOk))
      && after["bob"].balance == -950
      && !NonNegative(after)
  {
  }

  /**
    A successful transfer between two different users is undone by the
    transfer of the same amount back, which succeeds whenever the receiver's
    balance was not negative (its new balances are the stored old ones).
   */
  lemma TransferBackRestores(users: Table, sender: string, receiver: string, amount: int)
    requires Stored(users)
    requires CanTransfer(users, sender, receiver, amount) && Fits(users, sender, receiver, amount)
    requires sender != receiver && users[receiver].balance >= 0
    ensures var after := Transfer(users, sender, receiver, amount).0;
      Transfer(after, receiver, sender, amount) == (users, Returned(TransferResult(true, TransferOk)))
  {
    var after := Transfer(users, sender, receiver, amount).0;
    var back := Transfer(after, receiver, sender, amount).0;
    assert back.Keys == users.Keys;
    assert forall u :: u in users ==> back[u] == users[u];
    assert back == users;
  }

  /** Creating a user adds exactly that user's balance to the sum. */
  lemma CreateAddsBalance(users: Table, h: Hasher, username: string, password: string, salt: string, balance: int)
    requires username !in users
    ensures Total(users[username := User(h.hash(password, salt), balance)]) == Total(users) + balance
  {
    var row := User(h.hash(password, salt), balance);
    TotalRemove(users[username := row], username);
    assert users[username := row] - {username} == users;
  }

  /** After creating a user, a balance query returns the balance it was created with. */
  lemma CreateThenGetBalance(users: Table, h: Hasher, username: string, password: string, salt: string, balance: int)
    requires username !in users
    ensures GetBalance(users[username := User(h.hash(password, salt), balance)], username)
         == BalanceResult(Some(balance), None)
  {
  }

  /** After creating a user with a password, logging in with that password succeeds and reports the balance. */
  lemma CreateThenAuthenticate(users: Table, h: Hasher, username: string, password: string, salt: string, balance: int)
    requires Sound(h) && username !in users
    ensures Authenticate(users[username := User(h.hash(password, salt), balance)], h, username, password)
         == AuthResult(true, AuthOk, Some(balance))
  {
  }

  /** After creating a user with a password, logging in with any other password fails. */
  lemma CreateThenAuthenticateOther(users: Table, h: Hasher, username: string, password: string, salt: string, balance: int, other: string)
    requires Exact(h) && username !in users && other != password
    ensures Authenticate(users[username := User(h.hash(password, salt), balance)], h, username, other)
         == AuthFailed
  {
  }

  /**
    Logging in as an unknown user and logging in with a wrong password give
    the identical answer.
   */
  lemma UnknownUserLikeWrongPassword(users: Table, h: Hasher, unknown: string, known: string, p: string, q: string)
    requires unknown !in users && known in users && !h.check(users[known].passwordHash, q)
    ensures Authenticate(users, h, unknown, p) == Authenticate(users, h, known, q)
  {
  }
}

/** The ledger driven through its in-place table, as the service's handlers drive it. */
module LedgerScenarios {
  import opened Ledger

  /**
    Alice starts with 100 and Bob with 50; moving 30 from Alice to Bob
    succeeds and leaves 70 and 80, after which moving 1000 fails and leaves
    both balances as they were.
   */
  method AliceAndBob(h: Hasher)
      returns (first: Outcome<TransferResult>, second: Outcome<TransferResult>, alice: BalanceResult, bob: BalanceResult)
    ensures first == Returned(TransferResult(true, TransferOk))
    ensures second == Returned(TransferFailed)
    ensures alice == BalanceResult(Some(70), None) && bob == BalanceResult(Some(80), None)
  {
    var db := new UserTable();
    var created := db.CreateUser(h, "alice", "alice-password", "salt-1", 100);
    created := db.CreateUser(h, "bob", "bob-password", "salt-2", 50);
    first := db.TransferFunds("alice", "bob", 30);
    second := db.TransferFunds("alice", "bob", 1000);
    alice := GetBalance(db.users, "alice");
    bob := GetBalance(db.users, "bob");
  }

  /**
    A user created with a password can log in with it and sees the balance it
    was created with; a balance outside the 64-bit range creates no user, and
    the login then fails.
   */
  method RegisterThenLogin(db: UserTable, h: Hasher, username: string, password: string, salt: string, balance: int)
      returns (r: AuthResult)
    requires Sound(h) && db.Valid() && username !in db.users
    modifies db
    ensures db.Valid()
    ensures IsInt64(balance) ==> db.users == old(db.users)[username := User(h.hash(password, salt), balance)]
    ensures IsInt64(balance) ==> r == AuthResult(true, AuthOk, Some(balance))
    ensures !IsInt64(balance) ==> db.users == old(db.users) && r == AuthFailed
  {
    var created := db.CreateUser(h, username, password, salt, balance);
    r := Authenticate(db.users, h, username, password);
  }
}
