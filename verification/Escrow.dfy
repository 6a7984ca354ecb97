/** The escrow program: a job's budget is locked in a vault and settled worker by worker. */
module Escrow {
  import opened Prelude
  import opened Ledger

  const MAX_JOB_ID_LEN: nat := 32
  const MAX_WORKERS: nat := 10

  datatype WorkerAllocation = WorkerAllocation(worker: Account, allocation: nat, released: bool)

  datatype JobStatus = Active | Completed

  datatype Job = Job(creator: Id, totalBudget: nat, releasedAmount: nat, status: JobStatus,
    workers: seq<WorkerAllocation>)

  /** The program's own errors, and those of the runtime: account checks and failed transfers. */
  datatype Error =
    | JobIdTooLong | NoWorkers | TooManyWorkers | ZeroAllocation | Overflow | JobNotActive
    | WorkerNotFound | AlreadyReleased | InvalidWorkerIndex | WorkersNotSettled
    | AccountExists | AccountMissing | NotCreator | InsufficientFunds

  datatype Event =
    | JobCreated(job: Id) | PaymentReleased(job: Id, worker: Account, amount: nat)
    | PaymentSlashed(job: Id, worker: Account, amount: nat) | JobClosed(job: Id)

  // Sums over a job's workers.

  function Unsettled(ws: seq<WorkerAllocation>): nat {
    if |ws| == 0 then 0
    else Unsettled(ws[..|ws| - 1]) + if ws[|ws| - 1].released then 0 else ws[|ws| - 1].allocation
  }

  function Settled(ws: seq<WorkerAllocation>): nat {
    if |ws| == 0 then 0
    else Settled(ws[..|ws| - 1]) + if ws[|ws| - 1].released then ws[|ws| - 1].allocation else 0
  }

  function SettledCount(ws: seq<WorkerAllocation>): (n: nat)
    ensures n <= |ws|
  {
    if |ws| == 0 then 0 else SettledCount(ws[..|ws| - 1]) + if ws[|ws| - 1].released then 1 else 0
  }

  predicate AllReleased(ws: seq<WorkerAllocation>) {
    forall i :: 0 <= i < |ws| ==> ws[i].released
  }

  function Release(ws: seq<WorkerAllocation>, i: nat): seq<WorkerAllocation>
    requires i < |ws|
  {
    ws[i := ws[i].(released := true)]
  }

  /** Settling one entry moves its allocation, and nothing else, from the unsettled to the settled side. */
  lemma {:induction false} SettleOne(ws: seq<WorkerAllocation>, i: nat)
    requires i < |ws| && !ws[i].released
    ensures Unsettled(Release(ws, i)) == Unsettled(ws) - ws[i].allocation
    ensures Settled(Release(ws, i)) == Settled(ws) + ws[i].allocation
    ensures SettledCount(Release(ws, i)) == SettledCount(ws) + 1
  {
    var n := |ws| - 1;
    if i < n {
      SettleOne(ws[..n], i);
      assert Release(ws, i)[..n] == Release(ws[..n], i);
    } else {
      assert Release(ws, i)[..n] == ws[..n];
    }
  }

  /** All workers are settled exactly when the count says so, and then nothing is owed. */
  lemma {:induction false} AllReleasedIffCount(ws: seq<WorkerAllocation>)
    ensures AllReleased(ws) <==> SettledCount(ws) == |ws|
    ensures AllReleased(ws) ==> Unsettled(ws) == 0
  {
    if |ws| > 0 {
      AllReleasedIffCount(ws[..|ws| - 1]);
    }
  }

  lemma {:induction false} FreshWorkers(ws: seq<WorkerAllocation>, allocation: nat)
    requires forall i :: 0 <= i < |ws| ==> !ws[i].released && ws[i].allocation == allocation
    ensures Unsettled(ws) == allocation * |ws| && Settled(ws) == 0 && SettledCount(ws) == 0
  {
    if |ws| > 0 {
      FreshWorkers(ws[..|ws| - 1], allocation);
      assert allocation * |ws| == allocation * (|ws| - 1) + allocation;
    }
  }

  /** Position of the first entry for a worker; the number of entries when there is none. */
  function FirstEntry(ws: seq<WorkerAllocation>, worker: Account): (i: nat)
    ensures i <= |ws|
    ensures i < |ws| ==> ws[i].worker == worker
    ensures forall j :: 0 <= j < i ==> ws[j].worker != worker
  {
    if |ws| == 0 || ws[0].worker == worker then 0 else 1 + FirstEntry(ws[1..], worker)
  }

  lemma FirstEntryUnique(ws: seq<WorkerAllocation>, worker: Account, i: nat)
    requires i < |ws| && ws[i].worker == worker && forall j :: 0 <= j < i ==> ws[j].worker != worker
    ensures FirstEntry(ws, worker) == i
  {
  }

  // Counting what happened.

  function Settlements(events: seq<Event>, job: Id): nat {
    if |events| == 0 then 0
    else
      var e := events[|events| - 1];
      Settlements(events[..|events| - 1], job)
      + if (e.PaymentReleased? || e.PaymentSlashed?) && e.job == job then 1 else 0
  }

  /** How often `release_payment` paid this key out of this job. */
  function TimesPaid(events: seq<Event>, job: Id, worker: Account): nat {
    if |events| == 0 then 0
    else
      var e := events[|events| - 1];
      TimesPaid(events[..|events| - 1], job, worker)
      + if e.PaymentReleased? && e.job == job && e.worker == worker then 1 else 0
  }

  lemma EventAppend(events: seq<Event>, e: Event, job: Id)
    ensures Settlements(events + [e], job)
            == Settlements(events, job) + if (e.PaymentReleased? || e.PaymentSlashed?) && e.job == job then 1 else 0
    ensures forall w :: TimesPaid(events + [e], job, w)
                        == TimesPaid(events, job, w)
                           + if e.PaymentReleased? && e.job == job && e.worker == w then 1 else 0
  {
  }

  // The invariant.

  ghost predicate PaidOnce(ws: seq<WorkerAllocation>, events: seq<Event>, job: Id, worker: Account) {
    var i := FirstEntry(ws, worker);
    && TimesPaid(events, job, worker) <= 1
    && (TimesPaid(events, job, worker) == 1 ==> i < |ws| && ws[i].released)
  }

  ghost predicate JobInvariant(id: Id, job: Job, vault: nat, events: seq<Event>) {
    && 0 < |job.workers| <= MAX_WORKERS
    && job.totalBudget <= U64_MAX
    && job.releasedAmount == Settled(job.workers)
    && job.totalBudget == Settled(job.workers) + Unsettled(job.workers)
    && (job.status == Active ==> vault >= Unsettled(job.workers))
    && (job.status == Completed ==> AllReleased(job.workers))
    && Settlements(events, id) == SettledCount(job.workers)
    && forall w :: PaidOnce(job.workers, events, id, w)
  }

  /** An unsettled allocation fits into the budget and is covered by the vault. */
  lemma SettlementFits(id: Id, job: Job, vault: nat, events: seq<Event>, i: nat)
    requires JobInvariant(id, job, vault, events) && job.status == Active
    requires i < |job.workers| && !job.workers[i].released
    ensures job.releasedAmount + job.workers[i].allocation <= job.totalBudget <= U64_MAX
    ensures vault >= job.workers[i].allocation
  {
    SettleOne(job.workers, i);
  }

  /** Settling entry `i` by a release or a slash, with the matching event, keeps a job's invariant. */
  lemma SettlementKeeps(id: Id, job: Job, vault: nat, events: seq<Event>, i: nat, byRelease: bool, vault': nat)
    requires JobInvariant(id, job, vault, events) && job.status == Active
    requires i < |job.workers| && !job.workers[i].released
    requires byRelease ==> i == FirstEntry(job.workers, job.workers[i].worker)
    requires vault' >= vault - job.workers[i].allocation
    ensures var w := job.workers[i];
            var e := if byRelease then PaymentReleased(id, w.worker, w.allocation)
                else PaymentSlashed(id, w.worker, w.allocation);
            JobInvariant(id,
                         job.(workers := Release(job.workers, i), releasedAmount := job.releasedAmount + w.allocation),
                         vault', events + [e])
  {
    var w, ws := job.workers[i], Release(job.workers, i);
    var e := if byRelease then PaymentReleased(id, w.worker, w.allocation)
        else PaymentSlashed(id, w.worker, w.allocation);
    SettleOne(job.workers, i);
    EventAppend(events, e, id);
    forall k ensures PaidOnce(ws, events + [e], id, k) {
      assert PaidOnce(job.workers, events, id, k);
      var j := FirstEntry(job.workers, k);
      if j < |ws| {
        FirstEntryUnique(ws, k, j);
      } else {
        NoEntry(job.workers, ws, k);
      }
    }
  }

  lemma NoEntry(ws: seq<WorkerAllocation>, vs: seq<WorkerAllocation>, worker: Account)
    requires |ws| == |vs| && forall i :: 0 <= i < |ws| ==> ws[i].worker == vs[i].worker
    requires FirstEntry(ws, worker) == |ws|
    ensures FirstEntry(vs, worker) == |vs|
  {
  }

  /** Events and deposits of other jobs do not concern a job. */
  lemma OtherJobKeeps(id: Id, job: Job, vault: nat, events: seq<Event>, e: Event, vault': nat)
    requires JobInvariant(id, job, vault, events)
    requires e.job != id && vault' >= vault
    ensures JobInvariant(id, job, vault', events + [e])
  {
    EventAppend(events, e, id);
    forall k ensures PaidOnce(job.workers, events + [e], id, k) {
      assert PaidOnce(job.workers, events, id, k);
    }
  }

  class Program {
    var balances: Balances
    var jobs: map<Id, Job>
    var events: seq<Event>

    ghost predicate Valid()
      reads this
    {
      && (forall id :: id in jobs ==> JobInvariant(id, jobs[id], Balance(balances, EscrowVault(id)), events))
      && (forall id :: id !in jobs ==> Settlements(events, id) == 0 && forall w :: TimesPaid(events, id, w) == 0)
    }

    constructor (balances: Balances)
      ensures Valid() && this.balances == balances && jobs == map[] && events == []
    {
      this.balances := balances;
      jobs, events := map[], [];
    }

    /** Replaces one job and the balances, appending an event of that job. */
    method Commit(id: Id, job: Job, b: Balances, e: Event)
      requires Valid() && e.job == id
      requires JobInvariant(id, job, Balance(b, EscrowVault(id)), events + [e])
      requires forall other :: other != id ==> Balance(b, EscrowVault(other)) >= Balance(balances, EscrowVault(other))
      modifies this
      ensures Valid() && balances == b && jobs == old(jobs)[id := job] && events == old(events) + [e]
    {
      forall other | other in jobs && other != id
        ensures JobInvariant(other, jobs[other], Balance(b, EscrowVault(other)), events + [e])
      {
        OtherJobKeeps(other, jobs[other], Balance(balances, EscrowVault(other)), events, e,
          Balance(b, EscrowVault(other)));
      }
      forall other | other !in jobs && other != id
        ensures Settlements(events + [e], other) == 0 && forall w :: TimesPaid(events + [e], other, w) == 0
      {
        EventAppend(events, e, other);
      }
      balances, jobs, events := b, jobs[id := job], events + [e];
    }

    /** A job is created once and for all; any error leaves everything as it was. */
    method CreateJob(creator: Id, id: Id, idLength: nat, workers: seq<Account>, allocation: nat)
      returns (r: Result<(), Error>)
      requires Valid() && allocation <= U64_MAX
      modifies this
      ensures Valid() && Total(balances) == old(Total(balances))
      ensures r.Ok? <==>
                && id !in old(jobs) && idLength <= 32 && 0 < |workers| <= 10 && allocation > 0
                && allocation * |workers| <= U64_MAX
                && old(Balance(balances, Wallet(creator))) >= allocation * |workers|
      ensures r.Err? ==> balances == old(balances) && jobs == old(jobs) && events == old(events)
      ensures r.Ok? ==>
                && jobs == old(jobs)[id := Job(creator, allocation * |workers|, 0, Active,
                    NewWorkers(workers, allocation))]
                && Transfer(old(balances), Wallet(creator), EscrowVault(id), allocation * |workers|) == Some(balances)
                && events == old(events) + [JobCreated(id)]
    {
      if id in jobs { return Err(AccountExists); }
      if !(idLength <= MAX_JOB_ID_LEN) { return Err(JobIdTooLong); }
      if |workers| == 0 { return Err(NoWorkers); }
      if !(|workers| <= MAX_WORKERS) { return Err(TooManyWorkers); }
      if !(allocation > 0) { return Err(ZeroAllocation); }
      var totalBudget := allocation * |workers|;
      if totalBudget > U64_MAX { return Err(Overflow); }
      var transferred := Transfer(balances, Wallet(creator), EscrowVault(id), totalBudget);
      if transferred.None? { return Err(InsufficientFunds); }
      TransferConserves(balances, Wallet(creator), EscrowVault(id), totalBudget);
      var job := Job(creator, totalBudget, 0, Active, NewWorkers(workers, allocation));
      NewJobInvariant(id, job, allocation, Balance(transferred.value, EscrowVault(id)), events);
      Commit(id, job, transferred.value, JobCreated(id));
      r := Ok(());
    }

    /**
     * Pays the first entry listed for `worker`. Given the account checks it fails only for the four reasons
     * of the program; neither the addition nor the transfer ever does.
     */
    method ReleasePayment(signer: Id, id: Id, worker: Account) returns (r: Result<(), Error>)
      requires Valid()
      modifies this
      ensures Valid() && Total(balances) == old(Total(balances))
      ensures r.Err? ==> balances == old(balances) && jobs == old(jobs) && events == old(events)
      ensures r == if id !in old(jobs) then Err(AccountMissing)
                   else if old(jobs)[id].creator != signer then Err(NotCreator)
                   else if old(jobs)[id].status != Active then Err(JobNotActive)
                   else var ws := old(jobs)[id].workers;
                        var i := FirstEntry(ws, worker);
                        if i == |ws| then Err(WorkerNotFound)
                        else if ws[i].released then Err(AlreadyReleased)
                        else Ok(())
      ensures r.Ok? ==>
                var job := old(jobs)[id];
                var i := FirstEntry(job.workers, worker);
                && jobs == old(jobs)[id := Settle(job, i)]
                && Transfer(old(balances), EscrowVault(id), worker, job.workers[i].allocation) == Some(balances)
                && events == old(events) + [PaymentReleased(id, worker, job.workers[i].allocation)]
    {
      if id !in jobs { return Err(AccountMissing); }
      var job := jobs[id];
      if job.creator != signer { return Err(NotCreator); }
      if job.status != Active { return Err(JobNotActive); }
      var i := 0;
      while i < |job.workers| && job.workers[i].worker != worker
        invariant 0 <= i <= |job.workers| && forall j :: 0 <= j < i ==> job.workers[j].worker != worker
      {
        i := i + 1;
      }
      if i == |job.workers| {
        return Err(WorkerNotFound);
      }
      FirstEntryUnique(job.workers, worker, i);
      r := SettleEntry(id, i, worker, PaymentReleased(id, worker, job.workers[i].allocation));
    }

    method SlashPayment(signer: Id, id: Id, index: nat) returns (r: Result<(), Error>)
      requires Valid()
      modifies this
      ensures Valid() && Total(balances) == old(Total(balances))
      ensures r.Err? ==> balances == old(balances) && jobs == old(jobs) && events == old(events)
      ensures r == if id !in old(jobs) then Err(AccountMissing)
                   else if old(jobs)[id].creator != signer then Err(NotCreator)
                   else if old(jobs)[id].status != Active then Err(JobNotActive)
                   else if index >= |old(jobs)[id].workers| then Err(InvalidWorkerIndex)
                   else if old(jobs)[id].workers[index].released then Err(AlreadyReleased)
                   else Ok(())
      ensures r.Ok? ==>
                var job := old(jobs)[id];
                && jobs == old(jobs)[id := Settle(job, index)]
                && Transfer(old(balances), EscrowVault(id), Wallet(signer), job.workers[index].allocation)
                    == Some(balances)
                && events == old(events)
                    + [PaymentSlashed(id, job.workers[index].worker, job.workers[index].allocation)]
    {
      if id !in jobs { return Err(AccountMissing); }
      var job := jobs[id];
      if job.creator != signer { return Err(NotCreator); }
      if job.status != Active { return Err(JobNotActive); }
      if !(index < |job.workers|) { return Err(InvalidWorkerIndex); }
      var entry := job.workers[index];
      r := SettleEntry(id, index, Wallet(signer), PaymentSlashed(id, entry.worker, entry.allocation));
    }

    /** What release and slash share: mark the entry, add to the released amount, pay out of the vault. */
    method SettleEntry(id: Id, i: nat, payee: Account, e: Event) returns (r: Result<(), Error>)
      requires Valid() && id in jobs && jobs[id].status == Active && i < |jobs[id].workers|
      requires var w := jobs[id].workers[i];
               || e == PaymentSlashed(id, w.worker, w.allocation)
               || (e == PaymentReleased(id, w.worker, w.allocation) && payee == w.worker
                 && i == FirstEntry(jobs[id].workers, payee))
      modifies this
      ensures Valid() && Total(balances) == old(Total(balances))
      ensures r == if old(jobs)[id].workers[i].released then Err(AlreadyReleased) else Ok(())
      ensures r.Err? ==> balances == old(balances) && jobs == old(jobs) && events == old(events)
      ensures r.Ok? ==>
                && jobs == old(jobs)[id := Settle(old(jobs)[id], i)]
                && Transfer(old(balances), EscrowVault(id), payee, old(jobs)[id].workers[i].allocation)
                    == Some(balances)
                && events == old(events) + [e]
    {
      var job := jobs[id];
      var entry := job.workers[i];
      if entry.released { return Err(AlreadyReleased); }
      var amount := entry.allocation;
      job := job.(workers := job.workers[i := entry.(released := true)]);
      ghost var vault := Balance(balances, EscrowVault(id));
      assert JobInvariant(id, jobs[id], vault, events);
      hide JobInvariant, FirstEntry, Total, Settlements, TimesPaid;
      SettlementFits(id, jobs[id], vault, events, i);
      if job.releasedAmount + amount > U64_MAX { return Err(Overflow); }
      job := job.(releasedAmount := job.releasedAmount + amount);
      var transferred := Transfer(balances, EscrowVault(id), payee, amount);
      if transferred.None? { return Err(InsufficientFunds); }
      TransferConserves(balances, EscrowVault(id), payee, amount);
      SettlementKeeps(id, jobs[id], vault, events, i, e.PaymentReleased?, Balance(transferred.value, EscrowVault(id)));
      assert job == Settle(jobs[id], i);
      hide Transfer, Settle, Release;
      Commit(id, job, transferred.value, e);
      r := Ok(());
    }

    /** Closing succeeds exactly after as many settlements as there are workers, and empties the vault. */
    method CloseJob(signer: Id, id: Id) returns (r: Result<(), Error>)
      requires Valid()
      modifies this
      ensures Valid() && Total(balances) == old(Total(balances))
      ensures r.Err? ==> balances == old(balances) && jobs == old(jobs) && events == old(events)
      ensures r == if id !in old(jobs) then Err(AccountMissing)
                   else if old(jobs)[id].creator != signer then Err(NotCreator)
                   else if old(jobs)[id].status != Active then Err(JobNotActive)
                   else if old(Settlements(events, id)) != |old(jobs)[id].workers| then Err(WorkersNotSettled)
                   else Ok(())
      ensures r.Ok? ==>
                && jobs == old(jobs)[id := old(jobs)[id].(status := Completed)]
                && events == old(events) + [JobClosed(id)]
                && Balance(balances, EscrowVault(id)) == 0
                && Balance(balances, Wallet(signer))
                    == old(Balance(balances, Wallet(signer)) + Balance(balances, EscrowVault(id)))
    {
      if id !in jobs { return Err(AccountMissing); }
      var job := jobs[id];
      if job.creator != signer { return Err(NotCreator); }
      if job.status != Active { return Err(JobNotActive); }
      AllReleasedIffCount(job.workers);
      var i := 0;
      while i < |job.workers| && job.workers[i].released
        invariant 0 <= i <= |job.workers| && forall j :: 0 <= j < i ==> job.workers[j].released
      {
        i := i + 1;
      }
      if i < |job.workers| { return Err(WorkersNotSettled); }
      job := job.(status := Completed);
      var remaining := Balance(balances, EscrowVault(id));
      var after := balances;
      if remaining > 0 {
        var transferred := Transfer(balances, EscrowVault(id), Wallet(signer), remaining);
        if transferred.None? { return Err(InsufficientFunds); }
        TransferConserves(balances, EscrowVault(id), Wallet(signer), remaining);
        after := transferred.value;
      }
      ClosedKeeps(id, jobs[id], remaining, events, Balance(after, EscrowVault(id)));
      Commit(id, job, after, JobClosed(id));
      r := Ok(());
    }

    /** Lamports sent from outside, to vaults or elsewhere. */
    method Deposit(from: Id, to: Account, amount: nat) returns (r: Result<(), Error>)
      requires Valid()
      modifies this`balances
      ensures Valid() && Total(balances) == old(Total(balances))
      ensures r.Ok? <==> old(Balance(balances, Wallet(from))) >= amount
      ensures balances == if r.Ok? then Transfer(old(balances), Wallet(from), to, amount).value else old(balances)
    {
      var sent, after := Send(balances, from, to, amount);
      balances := after;
      r := if sent then Ok(()) else Err(InsufficientFunds);
    }

    /** From every reachable state of an active job its creator can settle what is left and close. */
    method WindDown(signer: Id, id: Id)
      requires Valid() && id in jobs && jobs[id].creator == signer && jobs[id].status == Active
      modifies this
      ensures Valid() && id in jobs && jobs[id].status == Completed && Balance(balances, EscrowVault(id)) == 0
      ensures Total(balances) == old(Total(balances))
      ensures jobs[id].releasedAmount == jobs[id].totalBudget == old(jobs)[id].totalBudget
    {
      var n := |jobs[id].workers|;
      for i := 0 to n
        invariant Valid() && id in jobs && jobs[id].creator == signer && jobs[id].status == Active
        invariant |jobs[id].workers| == n && jobs[id].totalBudget == old(jobs)[id].totalBudget
        invariant forall j :: 0 <= j < i ==> jobs[id].workers[j].released
        invariant Total(balances) == old(Total(balances))
      {
        var _ := SlashPayment(signer, id, i);
      }
      AllReleasedIffCount(jobs[id].workers);
      var _ := CloseJob(signer, id);
    }
  }

  function Settle(job: Job, i: nat): Job
    requires i < |job.workers|
  {
    job.(workers := Release(job.workers, i), releasedAmount := job.releasedAmount + job.workers[i].allocation)
  }

  function NewWorkers(workers: seq<Account>, allocation: nat): (r: seq<WorkerAllocation>)
    ensures |r| == |workers|
    ensures forall i :: 0 <= i < |r| ==> r[i] == WorkerAllocation(workers[i], allocation, false)
  {
    Map(workers, (w: Account) => WorkerAllocation(w, allocation, false))
  }

  lemma NewJobInvariant(id: Id, job: Job, allocation: nat, vault: nat, events: seq<Event>)
    requires 0 < |job.workers| <= MAX_WORKERS && job.totalBudget == allocation * |job.workers| <= U64_MAX
    requires job.releasedAmount == 0 && job.status == Active && vault >= job.totalBudget
    requires forall i :: 0 <= i < |job.workers| ==> !job.workers[i].released && job.workers[i].allocation == allocation
    requires Settlements(events, id) == 0 && forall w :: TimesPaid(events, id, w) == 0
    ensures JobInvariant(id, job, vault, events + [JobCreated(id)])
  {
    FreshWorkers(job.workers, allocation);
    EventAppend(events, JobCreated(id), id);
  }

  lemma ClosedKeeps(id: Id, job: Job, vault: nat, events: seq<Event>, vault': nat)
    requires JobInvariant(id, job, vault, events) && AllReleased(job.workers)
    ensures JobInvariant(id, job.(status := Completed), vault', events + [JobClosed(id)])
  {
    EventAppend(events, JobClosed(id), id);
    forall k ensures PaidOnce(job.workers, events + [JobClosed(id)], id, k) {
      assert PaidOnce(job.workers, events, id, k);
    }
  }
}
