/** The payments service: one balance per username and the handlers that
    read and change it. */
module Payments {
  import opened Common

  /** Sum of every balance in the table. */
  ghost function Total(b: map<string, real>): real
    decreases |b|
  {
    if b == map[] then 0.0
    else
      var u :| u in b;
      assert |b - {u}| < |b| by { assert (b - {u}).Keys < b.Keys; }
      b[u] + Total(b - {u})
  }

  /** Taking any one row out of the table takes exactly its balance out of the total. */
  lemma {:induction false} TotalWithout(b: map<string, real>, u: string)
    requires u in b
    ensures Total(b) == b[u] + Total(b - {u})
    decreases |b|
  {
    var w :| w in b && Total(b) == b[w] + Total(b - {w});
    if w != u {
      assert (b - {w}).Keys < b.Keys;
      assert (b - {u}).Keys < b.Keys;
      TotalWithout(b - {w}, u);
      TotalWithout(b - {u}, w);
      assert b - {w} - {u} == b - {u} - {w};
    }
  }

  /** Setting one row to `v` changes the total by `v` minus what the row held
      before (nothing, when the row is new). */
  lemma TotalAfterSet(b: map<string, real>, u: string, v: real)
    ensures Total(b[u := v]) == Total(b) - (if u in b then b[u] else 0.0) + v
  {
    var b' := b[u := v];
    TotalWithout(b', u);
    assert b' - {u} == b - {u};
    if u in b {
      TotalWithout(b, u);
    } else {
      assert b - {u} == b;
    }
  }

  /** No balance is negative. */
  ghost predicate NonNegative(b: map<string, real>) {
    forall u :: u in b ==> b[u] >= 0.0
  }

  /** The outcome of the checks `transfer` makes before it changes anything:
      all three parameters present, the amount a non-negative number, the
      sender known and holding at least the amount. */
  predicate TransferAllowed(b: map<string, real>, from: string, to: string, amount: Param<real>) {
    && from != "" && to != ""
    && amount.Given? && amount.value >= 0.0
    && from in b && b[from] >= amount.value
  }

  /** The table after `transfer`'s two writes: the sender debited, then the
      receiver credited by reading its row after the debit (a new row when it
      had none). The sender is debited and the receiver credited, a transfer
      to oneself changes nothing, nobody else changes and the total is kept. */
  function AfterTransfer(b: map<string, real>, from: string, to: string, amount: real): (r: map<string, real>)
    requires from in b
    ensures r.Keys == b.Keys + {to}
    ensures forall u :: u in b && u != from && u != to ==> r[u] == b[u]
    ensures from != to ==> r[from] == b[from] - amount
    ensures from != to ==> r[to] == (if to in b then b[to] else 0.0) + amount
    ensures from == to ==> r == b
    ensures Total(r) == Total(b)
  {
    var debited := b[from := b[from] - amount];
    var credit := (if to in debited then debited[to] else 0.0) + amount;
    TotalAfterSet(b, from, b[from] - amount);
    TotalAfterSet(debited, to, credit);
    assert from == to ==> debited[to := credit] == b;
    debited[to := credit]
  }

  /** Answer of `check_balance`; `balance` is None where the reply has no
      balance field. */
  datatype BalanceCheck = BalanceCheck(status: nat, hasEnough: bool, balance: Option<real>)

  /** Answer of `view_balance`; `balance` is None where the reply says "NULL". */
  datatype BalanceView = BalanceView(status: nat, balance: Option<real>)

  class Ledger {
    /** The balances table: username to balance. */
    var balances: map<string, real>

    ghost predicate Valid()
      reads this
    {
      NonNegative(balances)
    }

    constructor ()
      ensures Valid() && balances == map[]
    {
      balances := map[];
    }

    /** `initialize`: sets (or overwrites) a user's balance. */
    method Initialize(username: string, amount: Param<real>) returns (status: nat)
      requires Valid()
      modifies this
      ensures Valid()
      ensures status == 1 <==> username != "" && amount.Given? && amount.value >= 0.0
      ensures status != 1 ==> status == 2 && balances == old(balances)
      ensures status == 1 ==> balances == old(balances)[username := amount.value]
      ensures status == 1 ==>
        Total(balances) == Total(old(balances)) - (if username in old(balances) then old(balances)[username] else 0.0) + amount.value
    {
      if username == "" || amount.Absent? {
        return 2;
      }
      if amount.Malformed? || amount.value < 0.0 {
        return 2;
      }
      TotalAfterSet(balances, username, amount.value);
      balances := balances[username := amount.value];
      status := 1;
    }

    /** `add_money`: credits the caller, creating the row when there is none. */
    method AddMoney(token: string, auth: Auth, amount: Param<real>) returns (status: nat)
      requires Valid()
      modifies this
      ensures Valid()
      ensures status == 1 <==> token != "" && auth.Valid? && amount.Given? && amount.value >= 0.0
      ensures status != 1 ==> status == 2 && balances == old(balances)
      ensures status == 1 ==> balances.Keys == old(balances).Keys + {auth.username}
      ensures status == 1 ==>
        balances[auth.username] == (if auth.username in old(balances) then old(balances)[auth.username] else 0.0) + amount.value
      ensures status == 1 ==> forall u :: u in old(balances) && u != auth.username ==> balances[u] == old(balances)[u]
      ensures status == 1 ==> Total(balances) == Total(old(balances)) + amount.value
    {
      if token == "" || !auth.Valid? {
        return 2;
      }
      var username := auth.username;
      if amount.Absent? || amount.Malformed? || amount.value < 0.0 {
        return 2;
      }
      var a := amount.value;
      if username in balances {
        TotalAfterSet(balances, username, balances[username] + a);
        balances := balances[username := balances[username] + a];
      } else {
        TotalAfterSet(balances, username, a);
        balances := balances[username := a];
      }
      status := 1;
    }

    /** `view_balance`: the caller's balance, which is zero for a user without a row. */
    function ViewBalance(token: string, auth: Auth): (r: BalanceView)
      reads this
      ensures r.status == 1 <==> token != "" && auth.Valid?
      ensures r.status != 1 ==> r.status == 2 && r.balance == None
      ensures r.status == 1 && auth.username in balances ==> r.balance == Some(balances[auth.username])
      ensures r.status == 1 && auth.username !in balances ==> r.balance == Some(0.0)
    {
      if token == "" || !auth.Valid? then BalanceView(2, None)
      else if auth.username in balances then BalanceView(1, Some(balances[auth.username]))
      else BalanceView(1, Some(0.0))
    }

    /** `check_balance`: a read-only test of `balance >= amount`. It does not
        reject a negative amount. */
    function CheckBalance(username: string, amount: Param<real>): (r: BalanceCheck)
      reads this
      ensures r.status == 1 <==> username != "" && amount.Given? && username in balances
      ensures r.status != 1 ==> r.status == 2 && !r.hasEnough
      ensures r.status == 1 ==> r.hasEnough == (balances[username] >= amount.value)
      ensures r.status == 1 ==> r.balance == Some(balances[username])
    {
      if username == "" || amount.Absent? || amount.Malformed? then BalanceCheck(2, false, None)
      else if username !in balances then BalanceCheck(2, false, None)
      else BalanceCheck(1, balances[username] >= amount.value, Some(balances[username]))
    }

    /** `transfer`: reads the sender, debits it, then re-reads the receiver and
        credits it (or creates its row). The credit reads the table after the
        debit, so a transfer to oneself leaves the balance as it was. */
    method Transfer(from: string, to: string, amount: Param<real>) returns (status: nat)
      requires Valid()
      modifies this
      ensures Valid()
      ensures status == 1 <==> TransferAllowed(old(balances), from, to, amount)
      ensures status != 1 ==> status == 2 && balances == old(balances)
      ensures status == 1 ==> from in old(balances) && balances == AfterTransfer(old(balances), from, to, amount.value)
      ensures status == 1 ==> balances.Keys == old(balances).Keys + {to}
      ensures status == 1 ==> forall u :: u in old(balances) && u != from && u != to ==> balances[u] == old(balances)[u]
      ensures status == 1 && from != to ==> balances[from] == old(balances)[from] - amount.value
      ensures status == 1 && from != to ==>
        balances[to] == (if to in old(balances) then old(balances)[to] else 0.0) + amount.value
      ensures status == 1 && from == to ==> balances == old(balances)
      ensures status == 1 ==> Total(balances) == Total(old(balances))
    {
      if from == "" || to == "" || amount.Absent? {
        return 2;
      }
      if amount.Malformed? || amount.value < 0.0 {
        return 2;
      }
      var a := amount.value;
      if from !in balances {
        return 2;
      }
      var fromBalance := balances[from];
      if fromBalance < a {
        return 2;
      }
      balances := AfterTransfer(balances, from, to, a);
      status := 1;
    }
  }

  /** A balance check that reported enough funds for a non-negative amount,
      followed without interference by a transfer of that amount to a named
      receiver, passes every check the transfer makes. */
  lemma CheckedTransferAllowed(ledger: Ledger, from: string, to: string, amount: Param<real>)
    requires ledger.CheckBalance(from, amount).hasEnough
    requires to != "" && amount.Given? && amount.value >= 0.0
    ensures TransferAllowed(ledger.balances, from, to, amount)
  {
  }
}
