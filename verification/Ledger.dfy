/** Lamport balances and the system program's transfer, shared by the escrow and staking programs. */
module Ledger {
  import opened Prelude

  /** Wallets, and the vault addresses the programs derive for a job or a worker. Only wallets can sign. */
  datatype Account = Wallet(id: Id) | EscrowVault(job: Id) | StakeVault(worker: Id)

  type Balances = map<Account, nat>

  function Balance(b: Balances, a: Account): nat {
    if a in b then b[a] else 0
  }

  function Credit(a: Account, to: Account, amount: nat): nat {
    if a == to then amount else 0
  }

  /** Moves lamports; fails when the sender does not hold them. Sending to oneself changes nothing. */
  function Transfer(b: Balances, from: Account, to: Account, amount: nat): (r: Option<Balances>)
    ensures r.Some? <==> Balance(b, from) >= amount
    ensures r.Some? ==>
              forall a :: Balance(r.value, a) == Balance(b, a) + Credit(a, to, amount) - Credit(a, from, amount)
  {
    if Balance(b, from) < amount then None
    else
      var debited := b[from := Balance(b, from) - amount];
      Some(debited[to := Balance(debited, to) + amount])
  }

  ghost function Pick(b: Balances): (a: Account)
    requires b != map[]
    ensures a in b
  {
    var a :| a in b;
    a
  }

  /** All lamports there are. */
  ghost function Total(b: Balances): nat
    decreases |b|
  {
    if b == map[] then 0 else b[Pick(b)] + Total(b - {Pick(b)})
  }

  lemma {:induction false} TotalWithout(b: Balances, a: Account)
    requires a in b
    ensures Total(b) == b[a] + Total(b - {a})
    decreases |b|
  {
    var c := Pick(b);
    if c != a {
      var bc, ba := b - {c}, b - {a};
      assert |bc| < |b| && |ba| < |b|;
      TotalWithout(bc, a);
      TotalWithout(ba, c);
      assert bc - {a} == ba - {c};
    }
  }

  lemma TotalUpdate(b: Balances, a: Account, v: nat)
    ensures Total(b[a := v]) == Total(b) - Balance(b, a) + v
  {
    var c := b[a := v];
    TotalWithout(c, a);
    if a in b {
      TotalWithout(b, a);
      assert c - {a} == b - {a};
    } else {
      assert c - {a} == b;
    }
  }

  /** A transfer creates and destroys no lamports. */
  lemma TransferConserves(b: Balances, from: Account, to: Account, amount: nat)
    requires Balance(b, from) >= amount
    ensures Total(Transfer(b, from, to, amount).value) == Total(b)
  {
    hide Total;
    var debited := b[from := Balance(b, from) - amount];
    TotalUpdate(b, from, Balance(b, from) - amount);
    TotalUpdate(debited, to, Balance(debited, to) + amount);
  }

  /** No account holds more than there is, so that no balance can overflow. */
  lemma BalanceAtMostTotal(b: Balances, a: Account)
    ensures Balance(b, a) <= Total(b)
  {
  }

  /** Anyone may send lamports of their own anywhere, vaults included; only wallets sign. */
  method Send(b: Balances, from: Id, to: Account, amount: nat) returns (sent: bool, after: Balances)
    ensures sent <==> Balance(b, Wallet(from)) >= amount
    ensures after == if sent then Transfer(b, Wallet(from), to, amount).value else b
    ensures Total(after) == Total(b)
    ensures forall a :: a != Wallet(from) ==> Balance(after, a) >= Balance(b, a)
  {
    var moved := Transfer(b, Wallet(from), to, amount);
    if moved.None? {
      return false, b;
    }
    TransferConserves(b, Wallet(from), to, amount);
    sent, after := true, moved.value;
  }
}
