/** `ThreadPool` of httplib.h: workers that share a job queue under a mutex and a condition variable.

    A run is any interleaving of worker steps, calls of `enqueue` and `shutdown` by any number of client
    threads, and spurious wake-ups. The mutex is a lock bit; a notification wakes sleeping workers only, so
    a notification sent while nobody sleeps is lost, as with the real condition variable. */
module ThreadPool {
  import opened Wrappers

  type Job = nat

  datatype Worker =
    | WantLock           // before locking mutex_, at the start of a round or after waking up
    | Checking           // holds mutex_, evaluates the condition
    | Sleeping           // in cond_.wait, mutex_ released
    | Running(job: Job)  // fn()
    | Exited

  datatype Client =
    | Idle
    | EnqueueWants(job: Job)
    | EnqueueInside(job: Job)
    | EnqueueNotifies        // between unlocking and notify_one
    | ShutdownWants
    | ShutdownInside
    | ShutdownNotifies       // between unlocking and notify_all
    | Joining(next: nat)     // t.join() of worker `next`
    | Done                   // shutdown() has returned

  datatype Holder = ByWorker(w: nat) | ByClient(c: nat)

  datatype State = State(
    workers: seq<Worker>,
    clients: seq<Client>,
    lock: Option<Holder>,
    jobs: seq<Job>,
    shutdown: bool,
    enqueued: seq<Job>,      // history: jobs in the order of push_back
    started: seq<Job>,       // history: jobs in the order of pop_front
    finished: seq<Job>,      // history: jobs whose fn() has returned
    late: bool               // history: some push_back came after shutdown_ was set
  )

  datatype Act =
    | WorkerStep(w: nat)
    | Spurious(w: nat)               // a wake-up nobody asked for
    | CallEnqueue(c: nat, job: Job)
    | CallShutdown(c: nat)
    | ClientStep(c: nat, pick: nat)  // `pick`: the worker that notify_one wakes

  function Init(workers: nat, clients: nat): State {
    State(seq(workers, _ => WantLock), seq(clients, _ => Idle), None, [], false, [], [], [], false)
  }

  predicate SomeSleeps(s: State) {
    exists w :: 0 <= w < |s.workers| && s.workers[w] == Sleeping
  }

  predicate Enabled(s: State, a: Act) {
    match a
    case WorkerStep(w) =>
      w < |s.workers| &&
      (match s.workers[w]
       case WantLock => s.lock == None
       case Checking => true
       case Sleeping => false
       case Running(_) => true
       case Exited => false)
    case Spurious(w) => w < |s.workers| && s.workers[w] == Sleeping
    case CallEnqueue(c, _) => c < |s.clients| && s.clients[c] == Idle
    case CallShutdown(c) => c < |s.clients| && s.clients[c] == Idle
    case ClientStep(c, pick) =>
      c < |s.clients| &&
      (match s.clients[c]
       case Idle => false
       case EnqueueWants(_) => s.lock == None
       case EnqueueInside(_) => true
       case EnqueueNotifies => SomeSleeps(s) ==> pick < |s.workers| && s.workers[pick] == Sleeping
       case ShutdownWants => s.lock == None
       case ShutdownInside => true
       case ShutdownNotifies => true
       case Joining(k) => k >= |s.workers| || s.workers[k] == Exited
       case Done => false)
  }

  function Do(s: State, a: Act): State
    requires Enabled(s, a)
  {
    match a
    case WorkerStep(w) => WorkerDoes(s, w)
    case Spurious(w) => s.(workers := s.workers[w := WantLock])
    case CallEnqueue(c, job) => s.(clients := s.clients[c := EnqueueWants(job)])
    case CallShutdown(c) => s.(clients := s.clients[c := ShutdownWants])
    case ClientStep(c, pick) => ClientDoes(s, c, pick)
  }

  function WorkerDoes(s: State, w: nat): State
    requires w < |s.workers|
  {
    match s.workers[w]
    case WantLock => s.(workers := s.workers[w := Checking], lock := Some(ByWorker(w)))
    case Checking =>
      if s.jobs == [] && !s.shutdown then s.(workers := s.workers[w := Sleeping], lock := None)
      else if s.jobs == [] then s.(workers := s.workers[w := Exited], lock := None)
      else
        s.(workers := s.workers[w := Running(s.jobs[0])], lock := None,
           jobs := s.jobs[1..], started := s.started + [s.jobs[0]])
    case Running(job) => s.(workers := s.workers[w := WantLock], finished := s.finished + [job])
    case _ => s
  }

  function WakeAll(workers: seq<Worker>): (r: seq<Worker>)
    ensures |r| == |workers|
    ensures forall w :: 0 <= w < |workers| ==> r[w] == if workers[w] == Sleeping then WantLock else workers[w]
  {
    seq(|workers|, w requires 0 <= w < |workers| => if workers[w] == Sleeping then WantLock else workers[w])
  }

  function ClientDoes(s: State, c: nat, pick: nat): State
    requires c < |s.clients|
    requires s.clients[c] == EnqueueNotifies && SomeSleeps(s) ==> pick < |s.workers|
  {
    match s.clients[c]
    case EnqueueWants(job) => s.(clients := s.clients[c := EnqueueInside(job)], lock := Some(ByClient(c)))
    case EnqueueInside(job) =>
      s.(clients := s.clients[c := EnqueueNotifies], lock := None,
         jobs := s.jobs + [job], enqueued := s.enqueued + [job], late := s.late || s.shutdown)
    case EnqueueNotifies =>
      var u := s.(clients := s.clients[c := Idle]);
      if SomeSleeps(s) then u.(workers := s.workers[pick := WantLock]) else u
    case ShutdownWants => s.(clients := s.clients[c := ShutdownInside], lock := Some(ByClient(c)))
    case ShutdownInside => s.(clients := s.clients[c := ShutdownNotifies], lock := None, shutdown := true)
    case ShutdownNotifies => s.(clients := s.clients[c := Joining(0)], workers := WakeAll(s.workers))
    case Joining(k) => s.(clients := s.clients[c := if k >= |s.workers| then Done else Joining(k + 1)])
    case _ => s
  }

  // ------------------------------------------------------------------ invariant

  predicate Awake(w: Worker) { w == WantLock || w == Checking || w.Running? }

  predicate Inside(c: Client) { c.EnqueueInside? || c == ShutdownInside }

  function One(w: Worker, job: Job): nat {
    if w == Running(job) then 1 else 0
  }

  /** How many workers are running the job. */
  function InHand(workers: seq<Worker>, job: Job): nat {
    if workers == [] then 0 else InHand(workers[..|workers| - 1], job) + One(workers[|workers| - 1], job)
  }

  predicate LockOk(s: State) {
    && (forall w :: 0 <= w < |s.workers| ==> (s.workers[w] == Checking <==> s.lock == Some(ByWorker(w))))
    && (forall c :: 0 <= c < |s.clients| ==> (Inside(s.clients[c]) <==> s.lock == Some(ByClient(c))))
    && (s.lock.Some? ==>
          match s.lock.value case ByWorker(w) => w < |s.workers| case ByClient(c) => c < |s.clients|)
  }

  /** Jobs leave the queue in the order in which they came, each exactly once. */
  ghost predicate QueueOk(s: State) {
    && s.enqueued == s.started + s.jobs
    && forall job :: multiset(s.started)[job] == multiset(s.finished)[job] + InHand(s.workers, job)
  }

  predicate ExitOk(s: State) {
    && (forall w :: 0 <= w < |s.workers| && s.workers[w] == Exited ==> s.shutdown && (s.late || s.jobs == []))
    && (forall c :: 0 <= c < |s.clients| ==>
          match s.clients[c]
          case Joining(k) => s.shutdown && forall w :: 0 <= w < |s.workers| && w < k ==> s.workers[w] == Exited
          case Done => s.shutdown && forall w :: 0 <= w < |s.workers| ==> s.workers[w] == Exited
          case ShutdownNotifies => s.shutdown
          case _ => true)
  }

  /** A waiting job is on somebody's mind: a worker is awake, or a notification is still to be sent, or
      there is no worker left. */
  predicate JobsNoticed(s: State) {
    s.jobs == []
    || (exists w :: 0 <= w < |s.workers| && Awake(s.workers[w]))
    || (exists c :: 0 <= c < |s.clients| && s.clients[c] == EnqueueNotifies)
    || (forall w :: 0 <= w < |s.workers| ==> s.workers[w] == Exited)
  }

  /** Nobody sleeps through a shutdown. */
  predicate ShutdownNoticed(s: State) {
    !s.shutdown || !SomeSleeps(s) || (exists c :: 0 <= c < |s.clients| && s.clients[c] == ShutdownNotifies)
  }

  ghost predicate Inv(s: State) {
    LockOk(s) && QueueOk(s) && ExitOk(s) && JobsNoticed(s) && ShutdownNoticed(s)
  }

  lemma {:induction false} NothingInHand(workers: seq<Worker>, job: Job)
    requires forall w :: 0 <= w < |workers| ==> !workers[w].Running?
    ensures InHand(workers, job) == 0
  {
    if workers != [] { NothingInHand(workers[..|workers| - 1], job); }
  }

  lemma {:induction false} InHandUpdate(workers: seq<Worker>, w: nat, x: Worker, job: Job)
    requires w < |workers|
    ensures InHand(workers[w := x], job) + One(workers[w], job) == InHand(workers, job) + One(x, job)
  {
    var n := |workers| - 1;
    if w == n {
      assert workers[w := x][..n] == workers[..n];
    } else {
      InHandUpdate(workers[..n], w, x, job);
      assert workers[w := x][..n] == workers[..n][w := x];
    }
  }

  lemma {:induction false} InHandWakeAll(workers: seq<Worker>, job: Job)
    ensures InHand(WakeAll(workers), job) == InHand(workers, job)
  {
    if workers != [] {
      InHandWakeAll(workers[..|workers| - 1], job);
      assert WakeAll(workers)[..|workers| - 1] == WakeAll(workers[..|workers| - 1]);
    }
  }

  /** A step of one worker that neither takes nor finishes a job keeps the accounts. */
  lemma {:induction false} IdleMoveKeepsAccounts(s: State, w: nat, x: Worker)
    requires QueueOk(s) && w < |s.workers| && !s.workers[w].Running? && !x.Running?
    ensures QueueOk(s.(workers := s.workers[w := x]))
  {
    forall job ensures InHand(s.workers[w := x], job) == InHand(s.workers, job) {
      InHandUpdate(s.workers, w, x, job);
    }
  }

  lemma {:induction false} InitInv(workers: nat, clients: nat)
    ensures Inv(Init(workers, clients))
  {
    forall job ensures InHand(Init(workers, clients).workers, job) == 0 {
      NothingInHand(Init(workers, clients).workers, job);
    }
  }

  // worker steps

  lemma {:induction false} WorkerKeepsLock(s: State, w: nat)
    requires LockOk(s) && Enabled(s, WorkerStep(w))
    ensures LockOk(WorkerDoes(s, w))
  {}

  lemma {:induction false} TakeKeepsQueue(s: State, w: nat)
    requires QueueOk(s) && w < |s.workers| && s.workers[w] == Checking && s.jobs != []
    ensures QueueOk(WorkerDoes(s, w))
  {
    var taken := s.jobs[0];
    forall job
      ensures InHand(s.workers[w := Running(taken)], job) == InHand(s.workers, job) + if job == taken then 1 else 0
    {
      InHandUpdate(s.workers, w, Running(taken), job);
    }
    assert s.jobs == [taken] + s.jobs[1..];
    Shift(s.started, taken, s.jobs[1..]);
  }

  lemma {:induction false} FinishKeepsQueue(s: State, w: nat)
    requires QueueOk(s) && w < |s.workers| && s.workers[w].Running?
    ensures QueueOk(WorkerDoes(s, w))
  {
    var done := s.workers[w].job;
    forall job
      ensures InHand(s.workers[w := WantLock], job) + (if job == done then 1 else 0) == InHand(s.workers, job)
    {
      InHandUpdate(s.workers, w, WantLock, job);
    }
    Shift(s.finished, done, []);
  }

  lemma {:induction false} Shift(a: seq<Job>, x: Job, b: seq<Job>)
    ensures a + ([x] + b) == (a + [x]) + b
    ensures multiset(a + [x]) == multiset(a) + multiset{x}
  {}

  lemma {:induction false} WorkerKeepsQueue(s: State, w: nat)
    requires QueueOk(s) && Enabled(s, WorkerStep(w))
    ensures QueueOk(WorkerDoes(s, w))
  {
    match s.workers[w]
    case WantLock => IdleMoveKeepsAccounts(s, w, Checking);
    case Checking =>
      if s.jobs == [] {
        IdleMoveKeepsAccounts(s, w, if s.shutdown then Exited else Sleeping);
      } else {
        TakeKeepsQueue(s, w);
      }
    case Running(_) => FinishKeepsQueue(s, w);
  }

  lemma {:induction false} WorkerKeepsExit(s: State, w: nat)
    requires ExitOk(s) && Enabled(s, WorkerStep(w))
    ensures ExitOk(WorkerDoes(s, w))
  {}

  lemma {:induction false} WorkerKeepsNoticed(s: State, w: nat)
    requires JobsNoticed(s) && ShutdownNoticed(s) && Enabled(s, WorkerStep(w))
    ensures JobsNoticed(WorkerDoes(s, w)) && ShutdownNoticed(WorkerDoes(s, w))
  {
    var u := WorkerDoes(s, w);
    assert u.jobs != [] ==> Awake(u.workers[w]);
    assert u.clients == s.clients;
    if SomeSleeps(u) && u.shutdown {
      var k :| 0 <= k < |u.workers| && u.workers[k] == Sleeping;
      assert s.workers[k] == Sleeping;
    }
  }

  lemma {:induction false} WorkerKeepsInv(s: State, w: nat)
    requires Inv(s) && Enabled(s, WorkerStep(w))
    ensures Inv(WorkerDoes(s, w))
  {
    WorkerKeepsLock(s, w);
    WorkerKeepsQueue(s, w);
    WorkerKeepsExit(s, w);
    WorkerKeepsNoticed(s, w);
  }

  // wake-ups

  /** Waking one sleeping worker. */
  lemma {:induction false} WakeKeepsInv(s: State, w: nat)
    requires LockOk(s) && QueueOk(s) && ExitOk(s) && ShutdownNoticed(s)
    requires w < |s.workers| && s.workers[w] == Sleeping
    ensures Inv(s.(workers := s.workers[w := WantLock]))
  {
    var u := s.(workers := s.workers[w := WantLock]);
    IdleMoveKeepsAccounts(s, w, WantLock);
    assert Awake(u.workers[w]);
    FewerSleep(s, w);
    WakeKeepsExit(s, w);
  }

  lemma {:induction false} WakeKeepsExit(s: State, w: nat)
    requires LockOk(s) && ExitOk(s) && w < |s.workers| && s.workers[w] == Sleeping
    ensures LockOk(s.(workers := s.workers[w := WantLock])) && ExitOk(s.(workers := s.workers[w := WantLock]))
  {}

  lemma {:induction false} FewerSleep(s: State, w: nat)
    requires w < |s.workers|
    ensures SomeSleeps(s.(workers := s.workers[w := WantLock])) ==> SomeSleeps(s)
  {
    var u := s.(workers := s.workers[w := WantLock]);
    if SomeSleeps(u) {
      var k :| 0 <= k < |u.workers| && u.workers[k] == Sleeping;
      assert s.workers[k] == Sleeping;
    }
  }

  // client steps

  /** A client that only moves on: it neither gives nor takes a notification. */
  lemma {:induction false} ClientMoves(s: State, c: nat, x: Client, u: State)
    requires Inv(s) && c < |s.clients| && u == s.(clients := s.clients[c := x], lock := u.lock)
    requires s.clients[c] != EnqueueNotifies && s.clients[c] != ShutdownNotifies
    requires LockOk(u) && ExitOk(u)
    ensures Inv(u)
  {
    assert forall k :: 0 <= k < |s.clients| && k != c ==> u.clients[k] == s.clients[k];
  }

  lemma {:induction false} PushKeepsInv(s: State, c: nat, job: Job)
    requires Inv(s) && c < |s.clients| && s.clients[c] == EnqueueInside(job)
    ensures Inv(ClientDoes(s, c, 0))
  {
    var u := ClientDoes(s, c, 0);
    assert s.started + (s.jobs + [job]) == (s.started + s.jobs) + [job];
    assert u.clients[c] == EnqueueNotifies;
    assert forall k :: 0 <= k < |s.clients| && k != c ==> u.clients[k] == s.clients[k];
    PushKeepsShutdown(s, c, u);
  }

  lemma {:induction false} PushKeepsShutdown(s: State, c: nat, u: State)
    requires ShutdownNoticed(s) && c < |s.clients| && s.clients[c].EnqueueInside?
    requires u.workers == s.workers && u.shutdown == s.shutdown && u.clients == s.clients[c := EnqueueNotifies]
    ensures ShutdownNoticed(u)
  {
    if s.shutdown && SomeSleeps(u) {
      var k :| 0 <= k < |s.clients| && s.clients[k] == ShutdownNotifies;
      assert u.clients[k] == ShutdownNotifies;
    }
  }

  lemma {:induction false} NotifyOneKeepsInv(s: State, c: nat, pick: nat)
    requires Inv(s) && Enabled(s, ClientStep(c, pick)) && s.clients[c] == EnqueueNotifies
    ensures Inv(ClientDoes(s, c, pick))
  {
    var u := s.(clients := s.clients[c := Idle]);
    assert LockOk(u) && QueueOk(u) && ExitOk(u);
    assert ShutdownNoticed(u) by {
      if s.shutdown && SomeSleeps(u) {
        var k :| 0 <= k < |s.clients| && s.clients[k] == ShutdownNotifies;
        assert u.clients[k] == ShutdownNotifies;
      }
    }
    if SomeSleeps(s) {
      WakeKeepsInv(u, pick);
    } else {
      EverybodyUp(s);
    }
  }

  lemma {:induction false} EverybodyUp(s: State)
    requires !SomeSleeps(s)
    ensures (exists w :: 0 <= w < |s.workers| && Awake(s.workers[w]))
         || (forall w :: 0 <= w < |s.workers| ==> s.workers[w] == Exited)
  {
    if !(forall w :: 0 <= w < |s.workers| ==> s.workers[w] == Exited) {
      var w :| 0 <= w < |s.workers| && s.workers[w] != Exited;
      assert Awake(s.workers[w]);
    }
  }

  lemma {:induction false} SetShutdownKeepsInv(s: State, c: nat)
    requires Inv(s) && c < |s.clients| && s.clients[c] == ShutdownInside
    ensures Inv(ClientDoes(s, c, 0))
  {
    var u := ClientDoes(s, c, 0);
    assert u.clients[c] == ShutdownNotifies;
    if exists k :: 0 <= k < |s.clients| && s.clients[k] == EnqueueNotifies {
      var k :| 0 <= k < |s.clients| && s.clients[k] == EnqueueNotifies;
      assert u.clients[k] == EnqueueNotifies;
    }
  }

  lemma {:induction false} NotifyAllKeepsInv(s: State, c: nat)
    requires Inv(s) && c < |s.clients| && s.clients[c] == ShutdownNotifies
    ensures Inv(ClientDoes(s, c, 0))
  {
    var u := ClientDoes(s, c, 0);
    forall job ensures InHand(u.workers, job) == InHand(s.workers, job) {
      InHandWakeAll(s.workers, job);
    }
    assert !SomeSleeps(u);
    EverybodyUp(u);
    NotifyAllKeepsLock(s, c);
    NotifyAllKeepsExit(s, c);
  }

  lemma {:induction false} NotifyAllKeepsLock(s: State, c: nat)
    requires LockOk(s) && c < |s.clients| && s.clients[c] == ShutdownNotifies
    ensures LockOk(ClientDoes(s, c, 0))
  {
    assert forall w :: 0 <= w < |s.workers| ==> (WakeAll(s.workers)[w] == Checking <==> s.workers[w] == Checking);
  }

  lemma {:induction false} NotifyAllKeepsExit(s: State, c: nat)
    requires ExitOk(s) && c < |s.clients| && s.clients[c] == ShutdownNotifies
    ensures ExitOk(ClientDoes(s, c, 0))
  {
    assert forall w :: 0 <= w < |s.workers| ==> (WakeAll(s.workers)[w] == Exited <==> s.workers[w] == Exited);
  }

  lemma {:induction false} ClientKeepsInv(s: State, c: nat, pick: nat)
    requires Inv(s) && Enabled(s, ClientStep(c, pick))
    ensures Inv(ClientDoes(s, c, pick))
  {
    match s.clients[c]
    case EnqueueInside(job) => PushKeepsInv(s, c, job);
    case EnqueueNotifies => NotifyOneKeepsInv(s, c, pick);
    case ShutdownInside => SetShutdownKeepsInv(s, c);
    case ShutdownNotifies => NotifyAllKeepsInv(s, c);
    case _ => OnlyClientMoves(s, c, pick);
  }

  lemma {:induction false} LockingKeepsInv(s: State, c: nat, pick: nat)
    requires Inv(s) && Enabled(s, ClientStep(c, pick))
    requires s.clients[c].EnqueueWants? || s.clients[c].ShutdownWants?
    ensures Inv(ClientDoes(s, c, pick))
  {
    var x := if s.clients[c].EnqueueWants? then EnqueueInside(s.clients[c].job) else ShutdownInside;
    ClientMoves(s, c, x, ClientDoes(s, c, pick));
  }

  lemma {:induction false} JoiningKeepsInv(s: State, c: nat, pick: nat)
    requires Inv(s) && Enabled(s, ClientStep(c, pick)) && s.clients[c].Joining?
    ensures Inv(ClientDoes(s, c, pick))
  {
    var k := s.clients[c].next;
    ClientMoves(s, c, if k >= |s.workers| then Done else Joining(k + 1), ClientDoes(s, c, pick));
  }

  lemma {:induction false} OnlyClientMoves(s: State, c: nat, pick: nat)
    requires Inv(s) && Enabled(s, ClientStep(c, pick))
    requires s.clients[c].EnqueueWants? || s.clients[c].ShutdownWants? || s.clients[c].Joining?
    ensures Inv(ClientDoes(s, c, pick))
  {
    if s.clients[c].Joining? { JoiningKeepsInv(s, c, pick); } else { LockingKeepsInv(s, c, pick); }
  }

  lemma {:induction false} CallKeepsInv(s: State, c: nat, x: Client)
    requires Inv(s) && c < |s.clients| && s.clients[c] == Idle && (x.EnqueueWants? || x == ShutdownWants)
    ensures Inv(s.(clients := s.clients[c := x]))
  {
    ClientMoves(s, c, x, s.(clients := s.clients[c := x]));
  }

  /** Every step keeps the invariant. */
  lemma {:induction false} StepKeepsInv(s: State, a: Act)
    requires Inv(s) && Enabled(s, a)
    ensures Inv(Do(s, a))
  {
    match a
    case WorkerStep(w) => WorkerKeepsInv(s, w);
    case Spurious(w) => WakeKeepsInv(s, w);
    case CallEnqueue(c, job) => CallKeepsInv(s, c, EnqueueWants(job));
    case CallShutdown(c) => CallKeepsInv(s, c, ShutdownWants);
    case ClientStep(c, pick) => ClientKeepsInv(s, c, pick);
  }

  // ------------------------------------------------------------------ all runs

  /** An act that is not possible when its turn comes is passed over. */
  function Next(s: State, a: Act): State { if Enabled(s, a) then Do(s, a) else s }

  /** The state after a schedule. Every interleaving is a schedule. */
  function After(s: State, schedule: seq<Act>): State
    decreases |schedule|
  {
    if schedule == [] then s
    else After(Next(s, schedule[0]), schedule[1..])
  }

  lemma {:induction false} NextKeepsInv(s: State, a: Act)
    requires Inv(s)
    ensures Inv(Next(s, a)) && |Next(s, a).workers| == |s.workers|
  {
    if Enabled(s, a) { StepKeepsInv(s, a); }
  }

  lemma {:induction false} AfterKeepsInv(s: State, schedule: seq<Act>)
    requires Inv(s)
    ensures Inv(After(s, schedule)) && |After(s, schedule).workers| == |s.workers|
    decreases |schedule|
  {
    if schedule != [] {
      NextKeepsInv(s, schedule[0]);
      AfterKeepsInv(Next(s, schedule[0]), schedule[1..]);
    }
  }

  predicate AllExited(s: State) {
    forall w :: 0 <= w < |s.workers| ==> s.workers[w] == Exited
  }

  /** No wake-up is lost: while jobs wait and a worker is left, something other than a spurious wake-up can
      happen, and it involves nobody but the pool's own threads and a caller about to notify. */
  lemma {:induction false} WaitingJobsMove(s: State) returns (a: Act)
    requires Inv(s) && s.jobs != [] && !AllExited(s)
    ensures !a.Spurious? && !a.CallEnqueue? && !a.CallShutdown? && Enabled(s, a)
  {
    if s.lock.Some? {
      match s.lock.value
      case ByWorker(w) => a := WorkerStep(w);
      case ByClient(c) => a := ClientStep(c, 0);
    } else if exists w :: 0 <= w < |s.workers| && Awake(s.workers[w]) {
      var w :| 0 <= w < |s.workers| && Awake(s.workers[w]);
      a := WorkerStep(w);
    } else {
      var c :| 0 <= c < |s.clients| && s.clients[c] == EnqueueNotifies;
      var pick := 0;
      if SomeSleeps(s) { pick :| 0 <= pick < |s.workers| && s.workers[pick] == Sleeping; }
      a := ClientStep(c, pick);
    }
  }

  // ---------------------------------------------------------------- termination

  /** Shutdown has begun, nobody is enqueueing any more. */
  predicate Draining(s: State) {
    s.shutdown && forall c :: 0 <= c < |s.clients| ==> !s.clients[c].EnqueueWants? && !s.clients[c].EnqueueInside?
  }

  /** Everybody is through: the workers are gone and every call has returned. */
  predicate Settled(s: State) {
    AllExited(s) && forall c :: 0 <= c < |s.clients| ==> s.clients[c] == Idle || s.clients[c] == Done
  }

  /** An act of the pool itself, not a new call. */
  predicate Internal(a: Act) {
    !a.CallEnqueue? && !a.CallShutdown?
  }

  function WorkerWeight(w: Worker): nat {
    match w
    case Exited => 0
    case Checking => 1
    case WantLock => 2
    case _ => 3
  }

  function ClientWeight(c: Client, workers: nat): nat {
    match c
    case ShutdownWants => workers + 5
    case ShutdownInside => workers + 4
    case ShutdownNotifies => workers + 3
    case Joining(k) => if k > workers then 1 else workers - k + 2
    case EnqueueNotifies => 1
    case _ => 0
  }

  function WorkersWeight(workers: seq<Worker>): nat {
    if workers == [] then 0 else WorkersWeight(workers[..|workers| - 1]) + WorkerWeight(workers[|workers| - 1])
  }

  function ClientsWeight(clients: seq<Client>, workers: nat): nat {
    if clients == [] then 0
    else ClientsWeight(clients[..|clients| - 1], workers) + ClientWeight(clients[|clients| - 1], workers)
  }

  /** Waiting jobs, live workers and pending calls, weighted. */
  function Measure(s: State): nat {
    3 * |s.jobs| + WorkersWeight(s.workers) + ClientsWeight(s.clients, |s.workers|)
  }

  lemma {:induction false} WorkersWeightUpdate(workers: seq<Worker>, w: nat, x: Worker)
    requires w < |workers|
    ensures WorkersWeight(workers[w := x]) + WorkerWeight(workers[w]) == WorkersWeight(workers) + WorkerWeight(x)
  {
    var n := |workers| - 1;
    if w == n {
      assert workers[w := x][..n] == workers[..n];
    } else {
      WorkersWeightUpdate(workers[..n], w, x);
      assert workers[w := x][..n] == workers[..n][w := x];
    }
  }

  lemma {:induction false} ClientsWeightUpdate(clients: seq<Client>, c: nat, x: Client, workers: nat)
    requires c < |clients|
    ensures ClientsWeight(clients[c := x], workers) + ClientWeight(clients[c], workers)
         == ClientsWeight(clients, workers) + ClientWeight(x, workers)
  {
    var n := |clients| - 1;
    if c == n {
      assert clients[c := x][..n] == clients[..n];
    } else {
      ClientsWeightUpdate(clients[..n], c, x, workers);
      assert clients[c := x][..n] == clients[..n][c := x];
    }
  }

  lemma {:induction false} WakeAllIsLighter(workers: seq<Worker>)
    ensures WorkersWeight(WakeAll(workers)) <= WorkersWeight(workers)
  {
    if workers != [] {
      WakeAllIsLighter(workers[..|workers| - 1]);
      assert WakeAll(workers)[..|workers| - 1] == WakeAll(workers[..|workers| - 1]);
    }
  }

  /** While draining, every act of the pool makes the measure smaller, spurious wake-ups included. */
  lemma {:induction false} DrainingDecreases(s: State, a: Act)
    requires Inv(s) && Draining(s) && Internal(a) && Enabled(s, a)
    ensures Draining(Do(s, a)) && Measure(Do(s, a)) < Measure(s)
  {
    match a
    case WorkerStep(w) => WorkersWeightUpdate(s.workers, w, WorkerDoes(s, w).workers[w]);
    case Spurious(w) => WorkersWeightUpdate(s.workers, w, WantLock);
    case ClientStep(c, pick) => ClientDecreases(s, c, pick);
  }

  lemma {:induction false} NotifyDecreases(s: State, c: nat, pick: nat)
    requires Draining(s) && Enabled(s, ClientStep(c, pick)) && s.clients[c] == EnqueueNotifies
    ensures Draining(ClientDoes(s, c, pick)) && Measure(ClientDoes(s, c, pick)) < Measure(s)
  {
    ClientsWeightUpdate(s.clients, c, Idle, |s.workers|);
    if SomeSleeps(s) { WorkersWeightUpdate(s.workers, pick, WantLock); }
  }

  lemma {:induction false} NotifyAllDecreases(s: State, c: nat, pick: nat)
    requires Draining(s) && Enabled(s, ClientStep(c, pick)) && s.clients[c] == ShutdownNotifies
    ensures Draining(ClientDoes(s, c, pick)) && Measure(ClientDoes(s, c, pick)) < Measure(s)
  {
    ClientsWeightUpdate(s.clients, c, Joining(0), |s.workers|);
    WakeAllIsLighter(s.workers);
  }

  lemma {:induction false} ClientDecreases(s: State, c: nat, pick: nat)
    requires Draining(s) && Enabled(s, ClientStep(c, pick))
    ensures Draining(ClientDoes(s, c, pick)) && Measure(ClientDoes(s, c, pick)) < Measure(s)
  {
    if s.clients[c] == EnqueueNotifies {
      NotifyDecreases(s, c, pick);
    } else if s.clients[c] == ShutdownNotifies {
      NotifyAllDecreases(s, c, pick);
    } else {
      ClientsWeightUpdate(s.clients, c, ClientDoes(s, c, pick).clients[c], |s.workers|);
    }
  }

  /** While draining, something can be done without waiting for a spurious wake-up until all is settled. */
  lemma {:induction false} DrainingMoves(s: State) returns (a: Act)
    requires Inv(s) && Draining(s) && !Settled(s)
    ensures Internal(a) && !a.Spurious? && Enabled(s, a)
  {
    if s.lock.Some? {
      match s.lock.value
      case ByWorker(w) => a := WorkerStep(w);
      case ByClient(c) => a := ClientStep(c, 0);
    } else if !AllExited(s) {
      var w :| 0 <= w < |s.workers| && s.workers[w] != Exited;
      if s.workers[w] == Sleeping {
        var c :| 0 <= c < |s.clients| && s.clients[c] == ShutdownNotifies;
        a := ClientStep(c, 0);
      } else {
        a := WorkerStep(w);
      }
    } else {
      var c :| 0 <= c < |s.clients| && s.clients[c] != Idle && s.clients[c] != Done;
      a := ClientStep(c, 0);
    }
  }

  /** Acts that are all possible when their turn comes. */
  predicate Possible(s: State, acts: seq<Act>)
    decreases |acts|
  {
    acts == [] || (Enabled(s, acts[0]) && Internal(acts[0]) && Possible(Do(s, acts[0]), acts[1..]))
  }

  /** From a draining state the pool makes at most `Measure` more steps, whatever the interleaving, and where
      no step is left all jobs are done and shutdown has returned. */
  lemma {:induction false} ShutdownTerminates(s: State, acts: seq<Act>)
    requires Inv(s) && Draining(s) && Possible(s, acts)
    ensures |acts| <= Measure(s)
    ensures Inv(After(s, acts)) && Draining(After(s, acts))
    ensures (forall a :: Internal(a) ==> !Enabled(After(s, acts), a)) ==> Settled(After(s, acts))
    decreases |acts|
  {
    if acts == [] {
      if !Settled(s) {
        var a := DrainingMoves(s);
      }
    } else {
      StepKeepsInv(s, acts[0]);
      DrainingDecreases(s, acts[0]);
      ShutdownTerminates(Do(s, acts[0]), acts[1..]);
    }
  }
}
