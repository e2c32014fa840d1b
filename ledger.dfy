/** The user ledger of balance.cpp: `add_balance` and `sub_balance` over the
    `users` table, given here as the table value each produces. */
module Ledger {
  import opened Outcomes
  import opened Assets
  import opened Tables

  /** Every row is stored under its own user name. */
  ghost predicate UsersValid(users: map<Name, Account>)
  {
    forall u :: u in users ==> users[u].user == u
  }

  /** The checks of `sub_balance`, in order. */
  function DebitCheck(users: map<Name, Account>, owner: Name, value: Asset): (o: Outcome)
    ensures o == Fail(NoAccount) <==> owner !in users
    ensures o == Fail(Overdrawn) <==> owner in users && users[owner].balance.amount < value.amount
    ensures o.Pass? <==> owner in users && users[owner].balance.amount >= value.amount
  {
    if owner !in users then Fail(NoAccount)
    else if users[owner].balance.amount < value.amount then Fail(Overdrawn)
    else Pass
  }

  /** The table after `sub_balance(owner, value)` succeeded. */
  function Debited(users: map<Name, Account>, owner: Name, value: Asset): (r: map<Name, Account>)
    requires owner in users
    ensures r.Keys == users.Keys
    ensures r[owner].user == users[owner].user
    ensures r[owner].balance.amount == users[owner].balance.amount - value.amount
    ensures r[owner].balance.symbol == users[owner].balance.symbol
    ensures DebitCheck(users, owner, value).Pass? ==> r[owner].balance.amount >= 0
    ensures forall u :: u in users && u != owner ==> r[u] == users[u]
  {
    var b := users[owner].balance;
    users[owner := users[owner].(balance := Asset(b.amount - value.amount, b.symbol))]
  }

  /** The table after `add_balance(owner, value)`: a new row holding
      `value` when the owner has none, else `value` added to the balance. */
  function Credited(users: map<Name, Account>, owner: Name, value: Asset): (r: map<Name, Account>)
    ensures r.Keys == users.Keys + {owner}
    ensures owner !in users ==> r[owner] == Account(owner, value)
    ensures owner in users ==> r[owner].user == users[owner].user
    ensures owner in users ==> r[owner].balance == Asset(users[owner].balance.amount + value.amount, users[owner].balance.symbol)
    ensures forall u :: u in users && u != owner ==> r[u] == users[u]
    ensures UsersValid(users) ==> UsersValid(r)
  {
    if owner !in users then users[owner := Account(owner, value)]
    else
      var b := users[owner].balance;
      users[owner := users[owner].(balance := Asset(b.amount + value.amount, b.symbol))]
  }

  /** The table after `add_balance(p, value)` for each `p` of `payees` in
      order. */
  function CreditAll(users: map<Name, Account>, payees: seq<Name>, value: Asset): (r: map<Name, Account>)
    ensures UsersValid(users) ==> UsersValid(r)
  {
    if payees == [] then users
    else Credited(CreditAll(users, payees[..|payees| - 1], value), payees[|payees| - 1], value)
  }

  /** Amount held by `u`, 0 when it has no row. */
  function AmountOf(users: map<Name, Account>, u: Name): (r: int)
  {
    if u in users then users[u].balance.amount else 0
  }

  /** Crediting distinct payees adds `value` exactly once to each of them,
      creates rows for the new ones, and touches nobody else. */
  lemma {:induction false} CreditAllEffect(users: map<Name, Account>, payees: seq<Name>, value: Asset)
    requires forall i, j :: 0 <= i < j < |payees| ==> payees[i] != payees[j]
    ensures forall u :: u in CreditAll(users, payees, value) <==> u in users || u in payees
    ensures forall p :: p in payees ==> AmountOf(CreditAll(users, payees, value), p) == AmountOf(users, p) + value.amount
    ensures forall u :: u in users && u !in payees ==> CreditAll(users, payees, value)[u] == users[u]
  {
    if payees != [] {
      var init := payees[..|payees| - 1];
      var last := payees[|payees| - 1];
      CreditAllEffect(users, init, value);
      var before := CreditAll(users, init, value);
      var after := CreditAll(users, payees, value);
      assert after == Credited(before, last, value);
      assert payees == init + [last];
      assert last !in init;
      assert AmountOf(before, last) == AmountOf(users, last);
      forall p | p in payees
        ensures AmountOf(after, p) == AmountOf(users, p) + value.amount
      {
        if p != last {
          assert p in init;
        }
      }
    }
  }

  /** Escrow round trip: a debit that passed its checks followed by a credit
      of the same value to the same account restores the table. */
  lemma EscrowRoundTrip(users: map<Name, Account>, owner: Name, value: Asset)
    requires DebitCheck(users, owner, value).Pass?
    ensures Credited(Debited(users, owner, value), owner, value) == users
  {
    var r := Credited(Debited(users, owner, value), owner, value);
    assert r[owner] == users[owner];
    assert r.Keys == users.Keys;
  }
}
