/** What becomes of the calls made to the thread pool: every job handed over is run, once, in order. The calls
    are read off the schedule; the histories that the pool's steps write are shown to agree with them. */
module ThreadPoolJobs {
  import opened Wrappers
  import opened ThreadPool

  // ---------------------------------------------------------- calls in a schedule

  function OneIf(b: bool): nat { if b then 1 else 0 }

  /** How many calls of `enqueue` with this job begin in the schedule. */
  function EnqueueCalls(s: State, schedule: seq<Act>, job: Job): nat
    decreases |schedule|
  {
    if schedule == [] then 0
    else
      var a := schedule[0];
      OneIf(Enabled(s, a) && a.CallEnqueue? && a.job == job) + EnqueueCalls(Next(s, a), schedule[1..], job)
  }

  /** Client `c` calls `shutdown` in the schedule. */
  predicate ShutdownCalled(s: State, schedule: seq<Act>, c: nat)
    decreases |schedule|
  {
    schedule != []
    && ((Enabled(s, schedule[0]) && schedule[0] == CallShutdown(c))
        || ShutdownCalled(Next(s, schedule[0]), schedule[1..], c))
  }

  /** A client is in the critical section of `enqueue` when its turn comes. */
  predicate Pushes(s: State, a: Act) {
    Enabled(s, a) && a.ClientStep? && s.clients[a.c].EnqueueInside?
  }

  /** Some call of `enqueue` gets to its critical section after the pool was told to shut down. */
  predicate PushedLate(s: State, schedule: seq<Act>)
    decreases |schedule|
  {
    schedule != []
    && ((Pushes(s, schedule[0]) && s.shutdown) || PushedLate(Next(s, schedule[0]), schedule[1..]))
  }

  // ---------------------------------------------------------------- accounts

  function OnePending(c: Client, job: Job): nat { OneIf(c == EnqueueWants(job) || c == EnqueueInside(job)) }

  /** How many calls of `enqueue` with this job have not got through their critical section. */
  function Pending(clients: seq<Client>, job: Job): nat {
    if clients == [] then 0 else Pending(clients[..|clients| - 1], job) + OnePending(clients[|clients| - 1], job)
  }

  lemma {:induction false} PendingUpdate(clients: seq<Client>, c: nat, x: Client, job: Job)
    requires c < |clients|
    ensures Pending(clients[c := x], job) + OnePending(clients[c], job) == Pending(clients, job) + OnePending(x, job)
  {
    var n := |clients| - 1;
    if c == n {
      assert clients[c := x][..n] == clients[..n];
    } else {
      PendingUpdate(clients[..n], c, x, job);
      assert clients[c := x][..n] == clients[..n][c := x];
    }
  }

  lemma {:induction false} NonePending(clients: seq<Client>, job: Job)
    requires forall c :: 0 <= c < |clients| ==> OnePending(clients[c], job) == 0
    ensures Pending(clients, job) == 0
  {
    if clients != [] { NonePending(clients[..|clients| - 1], job); }
  }

  lemma {:induction false} ClientAccounts(s: State, c: nat, pick: nat, job: Job)
    requires Enabled(s, ClientStep(c, pick))
    ensures var u := ClientDoes(s, c, pick);
            multiset(u.enqueued)[job] + Pending(u.clients, job) == multiset(s.enqueued)[job] + Pending(s.clients, job)
  {
    var u := ClientDoes(s, c, pick);
    PendingUpdate(s.clients, c, u.clients[c], job);
  }

  /** A step accounts for every call: it begins one, or moves one on, and loses none. */
  lemma {:induction false} StepAccounts(s: State, a: Act, job: Job)
    requires Enabled(s, a)
    ensures multiset(Do(s, a).enqueued)[job] + Pending(Do(s, a).clients, job)
         == multiset(s.enqueued)[job] + Pending(s.clients, job) + OneIf(a.CallEnqueue? && a.job == job)
  {
    match a
    case CallEnqueue(c, j) => PendingUpdate(s.clients, c, EnqueueWants(j), job);
    case CallShutdown(c) => PendingUpdate(s.clients, c, ShutdownWants, job);
    case ClientStep(c, pick) => ClientAccounts(s, c, pick, job);
    case _ =>
  }

  lemma {:induction false} RunAccounts(s: State, schedule: seq<Act>, job: Job)
    ensures var u := After(s, schedule);
            multiset(u.enqueued)[job] + Pending(u.clients, job)
            == multiset(s.enqueued)[job] + Pending(s.clients, job) + EnqueueCalls(s, schedule, job)
    decreases |schedule|
  {
    if schedule != [] {
      if Enabled(s, schedule[0]) { StepAccounts(s, schedule[0], job); }
      RunAccounts(Next(s, schedule[0]), schedule[1..], job);
    }
  }

  // ---------------------------------------------------------------- shutdown

  /** Inside a call of `shutdown`, or back from it. */
  predicate InShutdown(c: Client) {
    c == ShutdownWants || c == ShutdownInside || c == ShutdownNotifies || c.Joining? || c == Done
  }

  /** The flag is set exactly when some call of `shutdown` is through its critical section. */
  predicate FlagOk(s: State) {
    s.shutdown <==> exists c :: 0 <= c < |s.clients| && FlagSet(s.clients[c])
  }

  predicate FlagSet(c: Client) { c == ShutdownNotifies || c.Joining? || c == Done }

  /** What a step does to the clients: one of them sets the flag, or none. */
  lemma {:induction false} StepOfClients(s: State, a: Act)
    requires Enabled(s, a)
    ensures var u := Do(s, a);
            && |u.clients| == |s.clients|
            && u.shutdown == (s.shutdown || (a.ClientStep? && s.clients[a.c] == ShutdownInside))
            && u.late == (s.late || (Pushes(s, a) && s.shutdown))
            && forall c :: 0 <= c < |s.clients| ==>
                 && (InShutdown(u.clients[c]) <==> InShutdown(s.clients[c]) || a == CallShutdown(c))
                 && (FlagSet(u.clients[c])
                     <==> FlagSet(s.clients[c]) || (a.ClientStep? && a.c == c && s.clients[c] == ShutdownInside))
  {}

  lemma {:induction false} StepKeepsFlag(s: State, a: Act)
    requires FlagOk(s) && Enabled(s, a)
    ensures FlagOk(Do(s, a))
  {
    StepOfClients(s, a);
    var u := Do(s, a);
    if u.shutdown {
      var c := if a.ClientStep? && s.clients[a.c] == ShutdownInside then a.c
               else var k :| 0 <= k < |s.clients| && FlagSet(s.clients[k]); k;
      assert FlagSet(u.clients[c]);
    }
  }

  lemma {:induction false} RunKeepsFlag(s: State, schedule: seq<Act>)
    requires FlagOk(s)
    ensures var u := After(s, schedule);
            && FlagOk(u) && |u.clients| == |s.clients| && u.late == (s.late || PushedLate(s, schedule))
            && forall c :: 0 <= c < |s.clients| ==>
                 (InShutdown(u.clients[c]) <==> InShutdown(s.clients[c]) || ShutdownCalled(s, schedule, c))
    decreases |schedule|
  {
    if schedule != [] {
      if Enabled(s, schedule[0]) {
        StepKeepsFlag(s, schedule[0]);
        StepOfClients(s, schedule[0]);
      }
      RunKeepsFlag(Next(s, schedule[0]), schedule[1..]);
    }
  }

  // ---------------------------------------------------------------- theorems

  lemma {:induction false} RunFacts(workers: nat, clients: nat, schedule: seq<Act>)
    ensures var s := After(Init(workers, clients), schedule);
            && Inv(s) && FlagOk(s) && |s.workers| == workers && |s.clients| == clients
            && s.late == PushedLate(Init(workers, clients), schedule)
            && (forall c :: 0 <= c < clients ==>
                  (InShutdown(s.clients[c]) <==> ShutdownCalled(Init(workers, clients), schedule, c)))
  {
    InitInv(workers, clients);
    AfterKeepsInv(Init(workers, clients), schedule);
    RunKeepsFlag(Init(workers, clients), schedule);
  }

  /** First in, first out, and no call is lost or doubled: the jobs of all calls of `enqueue` but those that wait
      for its critical section wait in the queue, are being run or are finished. */
  lemma {:induction false} FifoExactlyOnce(workers: nat, clients: nat, schedule: seq<Act>, job: Job)
    ensures var s := After(Init(workers, clients), schedule);
            && s.enqueued == s.started + s.jobs
            && EnqueueCalls(Init(workers, clients), schedule, job)
               == Pending(s.clients, job) + multiset(s.jobs)[job] + InHand(s.workers, job) + multiset(s.finished)[job]
  {
    var s := After(Init(workers, clients), schedule);
    RunFacts(workers, clients, schedule);
    RunAccounts(Init(workers, clients), schedule, job);
    NonePending(Init(workers, clients).clients, job);
    assert multiset(s.enqueued) == multiset(s.started) + multiset(s.jobs);
  }

  /** What was handed over earlier stays in front: so a call that has returned before another one begins has its
      job started first. */
  lemma {:induction false} OrderIsKept(s: State, schedule: seq<Act>)
    ensures var u := After(s, schedule);
            s.enqueued <= u.enqueued && s.started <= u.started && s.finished <= u.finished
    decreases |schedule|
  {
    if schedule != [] { OrderIsKept(Next(s, schedule[0]), schedule[1..]); }
  }

  /** No worker leaves before `shutdown` was called, nor while jobs wait that were pushed in time. */
  lemma {:induction false} NobodyLeavesJobs(workers: nat, clients: nat, schedule: seq<Act>, w: nat)
    requires var s := After(Init(workers, clients), schedule); w < |s.workers| && s.workers[w] == Exited
    ensures exists c :: 0 <= c < clients && ShutdownCalled(Init(workers, clients), schedule, c)
    ensures After(Init(workers, clients), schedule).jobs == [] || PushedLate(Init(workers, clients), schedule)
  {
    RunFacts(workers, clients, schedule);
    var s := After(Init(workers, clients), schedule);
    var c :| 0 <= c < |s.clients| && FlagSet(s.clients[c]);
    assert InShutdown(s.clients[c]);
  }

  /** Once the workers are gone, or `shutdown` has returned, the jobs done are those of all calls of `enqueue` that
      are through their critical section, unless one came to it after the shutdown. */
  lemma {:induction false} AllJobsDone(workers: nat, clients: nat, schedule: seq<Act>, job: Job)
    requires workers > 0 && !PushedLate(Init(workers, clients), schedule)
    requires var s := After(Init(workers, clients), schedule);
             AllExited(s) || exists c :: 0 <= c < |s.clients| && s.clients[c] == Done
    ensures var s := After(Init(workers, clients), schedule);
            && s.started == s.enqueued
            && multiset(s.finished)[job] + Pending(s.clients, job)
               == EnqueueCalls(Init(workers, clients), schedule, job)
  {
    RunFacts(workers, clients, schedule);
    FifoExactlyOnce(workers, clients, schedule, job);
    var s := After(Init(workers, clients), schedule);
    assert AllExited(s) && s.workers[0] == Exited;
    assert s.jobs == [] && s.started + [] == s.started;
    NothingInHand(s.workers, job);
  }
}
