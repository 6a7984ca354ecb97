/** The staking program: workers lock a stake that an admin may slash and that cools down before withdrawal. */
module Staking {
  import opened Prelude
  import opened Ledger

  const U32_MAX: nat := 0xFFFF_FFFF

  datatype Config = Config(admin: Id, minStake: nat, slashPercentage: nat, cooldownSeconds: int)

  datatype StakeAccount = StakeAccount(staked: nat, stakedAt: int, lockedUntil: int, slashCount: nat, active: bool)

  datatype Error =
    | InsufficientStake | CooldownNotExpired | StakeNotActive | InvalidSlashPercentage | InvalidCooldown | Overflow
    | AccountExists | AccountMissing | NotAdmin | InsufficientFunds

  /** Successful operations, with the clock and, where a lock is set, the cooldown then in force. */
  datatype Entry =
    | Staked(worker: Id, amount: nat, at: int, cooldown: int)
    | Slashed(worker: Id, amount: nat, at: int, cooldown: int)
    | Unstaked(worker: Id, amount: nat, at: int)

  datatype Flows = Flows(deposited: nat, returned: nat, slashed: nat)

  /** What a worker has deposited, got back and lost so far. */
  function FlowsOf(log: seq<Entry>, w: Id): Flows {
    if |log| == 0 then Flows(0, 0, 0)
    else
      var f, e := FlowsOf(log[..|log| - 1], w), log[|log| - 1];
      if e.worker != w then f else Added(f, e)
  }

  /** The end of the lock set by the last stake or slash of a worker. */
  function LockOf(log: seq<Entry>, w: Id): Option<int> {
    if |log| == 0 then None
    else
      var e := log[|log| - 1];
      if e.worker == w && !e.Unstaked? then Some(e.at + e.cooldown) else LockOf(log[..|log| - 1], w)
  }

  /** The last operation on a worker was a slash that left nothing. */
  predicate SlashedOut(log: seq<Entry>, w: Id) {
    if |log| == 0 then false
    else
      var e := log[|log| - 1];
      if e.worker != w then SlashedOut(log[..|log| - 1], w)
      else
        var f := FlowsOf(log, w);
        e.Slashed? && f.deposited == f.returned + f.slashed
  }

  lemma AppendOther(log: seq<Entry>, e: Entry, w: Id)
    requires e.worker != w
    ensures FlowsOf(log + [e], w) == FlowsOf(log, w) && LockOf(log + [e], w) == LockOf(log, w)
    ensures SlashedOut(log + [e], w) == SlashedOut(log, w)
  {
    assert (log + [e])[..|log|] == log;
  }

  function Added(f: Flows, e: Entry): Flows {
    match e
    case Staked(_, amount, _, _) => f.(deposited := f.deposited + amount)
    case Slashed(_, amount, _, _) => f.(slashed := f.slashed + amount)
    case Unstaked(_, amount, _) => f.(returned := f.returned + amount)
  }

  lemma AppendOwn(log: seq<Entry>, e: Entry)
    ensures FlowsOf(log + [e], e.worker) == Added(FlowsOf(log, e.worker), e)
    ensures LockOf(log + [e], e.worker) == if e.Unstaked? then LockOf(log, e.worker) else Some(e.at + e.cooldown)
    ensures var f := FlowsOf(log, e.worker);
            SlashedOut(log + [e], e.worker) <==> e.Slashed? && f.deposited == f.returned + f.slashed + e.amount
  {
    assert (log + [e])[..|log|] == log;
    assert FlowsOf(log + [e], e.worker) == Added(FlowsOf(log, e.worker), e);
  }

  /** Only a stake deposits, only a withdrawal returns, and only a slash takes. */
  lemma {:induction false} FlowsApart(log: seq<Entry>, w: Id)
    ensures (forall i :: 0 <= i < |log| && log[i].worker == w ==> !log[i].Staked?) ==> FlowsOf(log, w).deposited == 0
    ensures (forall i :: 0 <= i < |log| && log[i].worker == w ==> !log[i].Slashed?) ==> FlowsOf(log, w).slashed == 0
    ensures (forall i :: 0 <= i < |log| && log[i].worker == w ==> !log[i].Unstaked?) ==> FlowsOf(log, w).returned == 0
  {
    if |log| > 0 {
      FlowsApart(log[..|log| - 1], w);
    }
  }

  /** An operation is legal after a run: nothing follows a full slash, and a withdrawal waits for the lock. */
  ghost predicate Legal(before: seq<Entry>, e: Entry) {
    && !SlashedOut(before, e.worker)
    && (e.Unstaked? ==> LockOf(before, e.worker).Some? && LockOf(before, e.worker).value <= e.at)
  }

  ghost predicate LegalRun(log: seq<Entry>) {
    forall j :: 0 <= j < |log| ==> Legal(log[..j], log[j])
  }

  lemma LegalAppend(log: seq<Entry>, e: Entry)
    requires LegalRun(log) && Legal(log, e)
    ensures LegalRun(log + [e])
  {
    forall j | 0 <= j < |log + [e]| ensures Legal((log + [e])[..j], (log + [e])[j]) {
      assert (log + [e])[..j] == if j < |log| then log[..j] else log;
    }
  }

  /** A withdrawal comes no earlier than the end of the cooldown in force at the last stake or slash before it. */
  lemma WithdrawalsWait(log: seq<Entry>, i: nat, j: nat)
    requires LegalRun(log) && i < j < |log|
    requires log[j].Unstaked? && !log[i].Unstaked? && log[i].worker == log[j].worker
    requires forall k :: i < k < j && log[k].worker == log[j].worker ==> log[k].Unstaked?
    ensures log[i].at + log[i].cooldown <= log[j].at
  {
    LockIs(log[..j], i);
    assert Legal(log[..j], log[j]);
  }

  lemma {:induction false} LockIs(log: seq<Entry>, i: nat)
    requires i < |log| && !log[i].Unstaked?
    requires forall k :: i < k < |log| && log[k].worker == log[i].worker ==> log[k].Unstaked?
    ensures LockOf(log, log[i].worker) == Some(log[i].at + log[i].cooldown)
  {
    if i < |log| - 1 {
      LockIs(log[..|log| - 1], i);
    }
  }

  /** A fully slashed account is absorbing: no operation on that worker succeeds afterwards. */
  lemma {:induction false} FullSlashIsFinal(log: seq<Entry>, i: nat, j: nat)
    requires LegalRun(log) && i < j < |log|
    requires SlashedOut(log[..i + 1], log[i].worker)
    ensures log[j].worker != log[i].worker
  {
    StaysSlashedOut(log, i, j);
    assert Legal(log[..j], log[j]);
  }

  lemma LegalAt(log: seq<Entry>, k: nat)
    requires LegalRun(log) && k < |log|
    ensures Legal(log[..k], log[k])
  {
  }

  lemma {:induction false} StaysSlashedOut(log: seq<Entry>, i: nat, j: nat)
    requires LegalRun(log) && i < j <= |log|
    requires SlashedOut(log[..i + 1], log[i].worker)
    ensures SlashedOut(log[..j], log[i].worker)
  {
    if i + 1 < j {
      hide SlashedOut, LegalRun;
      StaysSlashedOut(log, i, j - 1);
      LegalAt(log, j - 1);
      assert log[..j] == log[..j - 1] + [log[j - 1]];
      AppendOther(log[..j - 1], log[j - 1], log[i].worker);
    }
  }

  /** What the accounts say about a worker is what the run says. */
  ghost predicate WorkerInvariant(w: Id, accounts: map<Id, StakeAccount>, vault: nat, log: seq<Entry>) {
    var f := FlowsOf(log, w);
    && f.deposited == f.returned + f.slashed + (if w in accounts then accounts[w].staked else 0)
    && (SlashedOut(log, w) <==> w in accounts && !accounts[w].active)
    && (w in accounts ==>
          && vault >= accounts[w].staked
          && (!accounts[w].active ==> accounts[w].staked == 0)
          && LockOf(log, w) == Some(accounts[w].lockedUntil))
  }

  /** Rust's `u64::saturating_sub`. */
  function SaturatingSub(x: nat, y: nat): nat {
    if x >= y then x - y else 0
  }

  /** Opening an account is legal and keeps the invariant of its worker. */
  lemma StakeKeeps(w: Id, accounts: map<Id, StakeAccount>, vault: nat, log: seq<Entry>, account: StakeAccount,
                   amount: nat, now: int, cooldown: int, vault': nat)
    requires WorkerInvariant(w, accounts, vault, log) && w !in accounts
    requires account.staked == amount && account.active && account.lockedUntil == now + cooldown && vault' >= amount
    ensures Legal(log, Staked(w, amount, now, cooldown))
    ensures WorkerInvariant(w, accounts[w := account], vault', log + [Staked(w, amount, now, cooldown)])
  {
    AppendOwn(log, Staked(w, amount, now, cooldown));
    hide FlowsOf, LockOf, SlashedOut;
  }

  /** So is slashing an active one, which is deactivated exactly when nothing is left. */
  lemma SlashKeeps(w: Id, accounts: map<Id, StakeAccount>, vault: nat, log: seq<Entry>, account: StakeAccount,
                   taken: nat, now: int, cooldown: int, vault': nat)
    requires WorkerInvariant(w, accounts, vault, log) && w in accounts && accounts[w].active
    requires taken + account.staked == accounts[w].staked && (account.active <==> account.staked > 0)
    requires account.lockedUntil == now + cooldown && vault' >= vault - taken
    ensures Legal(log, Slashed(w, taken, now, cooldown))
    ensures WorkerInvariant(w, accounts[w := account], vault', log + [Slashed(w, taken, now, cooldown)])
  {
    AppendOwn(log, Slashed(w, taken, now, cooldown));
    hide FlowsOf, LockOf, SlashedOut;
  }

  class Program {
    var balances: Balances
    var config: Option<Config>
    var accounts: map<Id, StakeAccount>
    ghost var log: seq<Entry>

    ghost predicate Valid()
      reads this
    {
      && LegalRun(log)
      && (forall w :: WorkerInvariant(w, accounts, Balance(balances, StakeVault(w)), log))
    }

    constructor (balances: Balances)
      ensures Valid() && this.balances == balances && config == None && accounts == map[] && log == []
    {
      this.balances := balances;
      config, accounts, log := None, map[], [];
    }

    /** Applies the effect of one successful operation on the worker of `e`. */
    method Commit(ghost e: Entry, b: Balances, after: map<Id, StakeAccount>)
      requires Valid() && Legal(log, e)
      requires forall w :: w != e.worker ==>
                 (w in after <==> w in accounts) && (w in accounts ==> after[w] == accounts[w])
      requires forall w :: w != e.worker ==> Balance(b, StakeVault(w)) >= Balance(balances, StakeVault(w))
      requires WorkerInvariant(e.worker, after, Balance(b, StakeVault(e.worker)), log + [e])
      modifies this`balances, this`accounts, this`log
      ensures Valid() && balances == b && accounts == after && log == old(log) + [e]
    {
      LegalAppend(log, e);
      forall w ensures WorkerInvariant(w, after, Balance(b, StakeVault(w)), log + [e]) {
        if w != e.worker {
          assert WorkerInvariant(w, accounts, Balance(balances, StakeVault(w)), log);
          AppendOther(log, e, w);
        }
      }
      balances, accounts, log := b, after, log + [e];
    }

    method InitializeConfig(signer: Id, minStake: nat, slashPercentage: nat, cooldownSeconds: int)
      returns (r: Result<(), Error>)
      requires Valid()
      modifies this`config
      ensures Valid()
      ensures r == if old(config).Some? then Err(AccountExists)
                   else if slashPercentage > 100 then Err(InvalidSlashPercentage)
                   else if cooldownSeconds < 0 then Err(InvalidCooldown)
                   else Ok(())
      ensures config == if r.Ok? then Some(Config(signer, minStake, slashPercentage, cooldownSeconds)) else old(config)
    {
      if config.Some? { return Err(AccountExists); }
      if !(slashPercentage <= 100) { return Err(InvalidSlashPercentage); }
      if !(cooldownSeconds >= 0) { return Err(InvalidCooldown); }
      config := Some(Config(signer, minStake, slashPercentage, cooldownSeconds));
      r := Ok(());
    }

    method UpdateConfig(signer: Id, minStake: nat, slashPercentage: nat, cooldownSeconds: int)
      returns (r: Result<(), Error>)
      requires Valid()
      modifies this`config
      ensures Valid()
      ensures r == if old(config).None? then Err(AccountMissing)
                   else if old(config).value.admin != signer then Err(NotAdmin)
                   else if slashPercentage > 100 then Err(InvalidSlashPercentage)
                   else if cooldownSeconds < 0 then Err(InvalidCooldown)
                   else Ok(())
      ensures config == if r.Ok? then Some(Config(signer, minStake, slashPercentage, cooldownSeconds)) else old(config)
    {
      if config.None? { return Err(AccountMissing); }
      if config.value.admin != signer { return Err(NotAdmin); }
      if !(slashPercentage <= 100) { return Err(InvalidSlashPercentage); }
      if !(cooldownSeconds >= 0) { return Err(InvalidCooldown); }
      config := Some(config.value.(minStake := minStake, slashPercentage := slashPercentage,
        cooldownSeconds := cooldownSeconds));
      r := Ok(());
    }

    /**
     * Opens the worker's account; it must not exist, so neither an open nor a fully slashed one can be staked again.
     */
    method Stake(worker: Id, amount: nat, now: int) returns (r: Result<(), Error>)
      requires Valid() && amount <= U64_MAX
      modifies this
      ensures Valid() && config == old(config) && Total(balances) == old(Total(balances))
      ensures r.Err? ==> balances == old(balances) && accounts == old(accounts) && log == old(log)
      ensures r == if worker in old(accounts) then Err(AccountExists)
                   else if config.None? then Err(AccountMissing)
                   else if amount < config.value.minStake then Err(InsufficientStake)
                   else if old(Balance(balances, Wallet(worker))) < amount then Err(InsufficientFunds)
                   else if now + config.value.cooldownSeconds > I64_MAX then Err(Overflow)
                   else Ok(())
      ensures r.Ok? ==>
                && accounts
                   == old(accounts)[worker := StakeAccount(amount, now, now + config.value.cooldownSeconds, 0, true)]
                && Transfer(old(balances), Wallet(worker), StakeVault(worker), amount) == Some(balances)
                && log == old(log) + [Staked(worker, amount, now, config.value.cooldownSeconds)]
    {
      if worker in accounts { return Err(AccountExists); }
      if config.None? { return Err(AccountMissing); }
      var c := config.value;
      if !(amount >= c.minStake) { return Err(InsufficientStake); }
      var transferred := Transfer(balances, Wallet(worker), StakeVault(worker), amount);
      if transferred.None? { return Err(InsufficientFunds); }
      TransferConserves(balances, Wallet(worker), StakeVault(worker), amount);
      if now + c.cooldownSeconds > I64_MAX { return Err(Overflow); }
      var account := StakeAccount(amount, now, now + c.cooldownSeconds, 0, true);
      ghost var e := Staked(worker, amount, now, c.cooldownSeconds);
      ghost var vault := Balance(balances, StakeVault(worker));
      assert WorkerInvariant(worker, accounts, vault, log);
      StakeKeeps(worker, accounts, vault, log, account, amount, now, c.cooldownSeconds,
        Balance(transferred.value, StakeVault(worker)));
      hide WorkerInvariant, Legal, Total;
      Commit(e, transferred.value, accounts[worker := account]);
      r := Ok(());
    }

    /** Takes at most the stake, restarts the lock, and deactivates an account left with nothing. */
    method Slash(signer: Id, worker: Id, amount: nat, now: int) returns (r: Result<(), Error>)
      requires Valid()
      modifies this
      ensures Valid() && config == old(config) && Total(balances) == old(Total(balances))
      ensures r.Err? ==> balances == old(balances) && accounts == old(accounts) && log == old(log)
      ensures r == if worker !in old(accounts) || config.None? then Err(AccountMissing)
                   else if config.value.admin != signer then Err(NotAdmin)
                   else if !old(accounts)[worker].active then Err(StakeNotActive)
                   else if old(accounts)[worker].slashCount >= 0xFFFF_FFFF then Err(Overflow)
                   else if now + config.value.cooldownSeconds > I64_MAX then Err(Overflow)
                   else Ok(())
      ensures r.Ok? ==>
                var was := old(accounts)[worker];
                var taken := if amount <= was.staked then amount else was.staked;
                && accounts == old(accounts)[worker := StakeAccount(was.staked - taken, was.stakedAt,
                     now + config.value.cooldownSeconds, was.slashCount + 1, was.staked != taken)]
                && Transfer(old(balances), StakeVault(worker), Wallet(signer), taken) == Some(balances)
                && log == old(log) + [Slashed(worker, taken, now, config.value.cooldownSeconds)]
    {
      if worker !in accounts || config.None? { return Err(AccountMissing); }
      var c, account := config.value, accounts[worker];
      if c.admin != signer { return Err(NotAdmin); }
      if !account.active { return Err(StakeNotActive); }
      var taken := if amount <= account.staked then amount else account.staked;
      assert WorkerInvariant(worker, accounts, Balance(balances, StakeVault(worker)), log);
      var transferred := Transfer(balances, StakeVault(worker), Wallet(signer), taken);
      if transferred.None? { return Err(InsufficientFunds); }
      TransferConserves(balances, StakeVault(worker), Wallet(signer), taken);
      account := account.(staked := SaturatingSub(account.staked, taken));
      if account.slashCount + 1 > U32_MAX { return Err(Overflow); }
      account := account.(slashCount := account.slashCount + 1);
      if now + c.cooldownSeconds > I64_MAX { return Err(Overflow); }
      account := account.(lockedUntil := now + c.cooldownSeconds);
      if account.staked == 0 {
        account := account.(active := false);
      }
      ghost var e := Slashed(worker, taken, now, c.cooldownSeconds);
      ghost var vault := Balance(balances, StakeVault(worker));
      SlashKeeps(worker, accounts, vault, log, account, taken, now, c.cooldownSeconds,
        Balance(transferred.value, StakeVault(worker)));
      hide WorkerInvariant, Legal, Total;
      Commit(e, transferred.value, accounts[worker := account]);
      r := Ok(());
    }

    /** Returns the whole stake and closes the account; the transfer never fails. */
    method Unstake(worker: Id, now: int) returns (r: Result<(), Error>)
      requires Valid()
      modifies this
      ensures Valid() && config == old(config) && Total(balances) == old(Total(balances))
      ensures r.Err? ==> balances == old(balances) && accounts == old(accounts) && log == old(log)
      ensures r == if worker !in old(accounts) then Err(AccountMissing)
                   else if !old(accounts)[worker].active then Err(StakeNotActive)
                   else if now < old(accounts)[worker].lockedUntil then Err(CooldownNotExpired)
                   else Ok(())
      ensures r.Ok? ==>
                && accounts == old(accounts) - {worker}
                && Transfer(old(balances), StakeVault(worker), Wallet(worker), old(accounts)[worker].staked)
                    == Some(balances)
                && log == old(log) + [Unstaked(worker, old(accounts)[worker].staked, now)]
    {
      if worker !in accounts { return Err(AccountMissing); }
      var account := accounts[worker];
      if !account.active { return Err(StakeNotActive); }
      if !(now >= account.lockedUntil) { return Err(CooldownNotExpired); }
      var amount := account.staked;
      assert WorkerInvariant(worker, accounts, Balance(balances, StakeVault(worker)), log);
      var transferred := Transfer(balances, StakeVault(worker), Wallet(worker), amount);
      if transferred.None? { return Err(InsufficientFunds); }
      TransferConserves(balances, StakeVault(worker), Wallet(worker), amount);
      ghost var e := Unstaked(worker, amount, now);
      AppendOwn(log, e);
      Commit(e, transferred.value, accounts - {worker});
      r := Ok(());
    }

    /** Lamports sent to a vault from outside never hurt. */
    method Deposit(from: Id, to: Account, amount: nat) returns (r: Result<(), Error>)
      requires Valid()
      modifies this`balances
      ensures Valid() && Total(balances) == old(Total(balances))
      ensures r.Ok? <==> old(Balance(balances, Wallet(from))) >= amount
      ensures balances == if r.Ok? then Transfer(old(balances), Wallet(from), to, amount).value else old(balances)
    {
      var sent, after := Send(balances, from, to, amount);
      forall w ensures WorkerInvariant(w, accounts, Balance(after, StakeVault(w)), log) {
        assert WorkerInvariant(w, accounts, Balance(balances, StakeVault(w)), log);
      }
      balances := after;
      r := if sent then Ok(()) else Err(InsufficientFunds);
    }
  }
}
