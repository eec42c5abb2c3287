/** What becomes of the client's socket, told by the choices made in a run: by the answers of the peer, failed
    writes, dead probes and calls of `stop`, and not by what the activations remember of them. */
module ClientClosing {
  import opened Wrappers
  import opened ClientInFlight

  // ------------------------------------------------------------- runs by step

  /** The state of the run before its step `n`. */
  function Before(threads: nat, run: Schedule, n: nat): State
    requires n <= |run|
  {
    After(Init(threads), run[..n])
  }

  /** Step `i` of the run is one that thread `t` takes. */
  predicate Takes(threads: nat, run: Schedule, i: nat, t: Tid) {
    i < |run| && run[i].0 == t && Enabled(Before(threads, run, i), t, run[i].1)
  }

  /** Thread `t` takes step `i` and then, as its next one, step `j`. */
  predicate Follows(threads: nat, run: Schedule, t: Tid, i: nat, j: nat) {
    && i < j && Takes(threads, run, i, t) && Takes(threads, run, j, t)
    && forall k :: i < k < j ==> !Takes(threads, run, k, t)
  }

  lemma {:induction false} OneStep(threads: nat, run: Schedule, n: nat)
    requires n < |run|
    ensures var u := Before(threads, run, n);
            Before(threads, run, n + 1)
            == if Enabled(u, run[n].0, run[n].1) then Do(u, run[n].0, run[n].1) else u
  {
    AfterSnoc(Init(threads), run, n, Before(threads, run, n));
  }

  lemma {:induction false} BeforeIsSafe(threads: nat, run: Schedule, n: nat)
    requires n <= |run|
    ensures Inv(Before(threads, run, n))
  {
    InitInv(threads);
    AfterKeepsInv(Init(threads), run[..n]);
  }

  // --------------------------------------------------------- what was decided

  /** What an answer asks for: nothing, closing at once, or an exit that closes or does not. */
  datatype Decision = Nothing | CloseNow | Exit(close: bool)

  /** The decision in a step: "Connection: close", the end of a request, or the failure of its first write. */
  function Decided(u: State, t: Tid, c: Choice): Decision
    requires Enabled(u, t, c)
  {
    match c
    case AskClose => CloseNow
    case Respond(ret, closeConnection) => Exit(!ret || closeConnection)
    case Go(_, works) => if FirstWrite(u, t) && (!works || u.shut) then Exit(true) else Nothing
    case _ => Nothing
  }

  predicate FirstWrite(u: State, t: Tid) {
    t < |u.stacks| && u.stacks[t] != [] && Top(u.stacks[t]).Send? && Top(u.stacks[t]).pc == Writing
  }

  function Later(e: Decision, d: Decision, taken: nat): (Decision, nat) {
    if e != Nothing then (e, 0) else (d, taken + 1)
  }

  /** The last decision of thread `t` before step `n`, and how many steps it has taken since. */
  function LastDecision(threads: nat, run: Schedule, n: nat, t: Tid): (Decision, nat)
    requires n <= |run|
  {
    if n == 0 then (Nothing, 0)
    else
      var (d, taken) := LastDecision(threads, run, n - 1, t);
      if !Takes(threads, run, n - 1, t) then (d, taken)
      else
        var e := Decided(Before(threads, run, n - 1), t, run[n - 1].1);
        Later(e, d, taken)
  }

  function TopOf(stack: seq<Frame>): Option<Frame> { if stack == [] then None else Some(Top(stack)) }

  predicate StandsAt(top: Option<Frame>, pc: SendPc) {
    top.Some? && top.value.Send? && top.value.pc == pc
  }

  /** Where the decision has brought the thread. */
  predicate Obeys(top: Option<Frame>, d: Decision, taken: nat) {
    && (StandsAt(top, WantClose) <==> d == CloseNow && taken == 0)
    && (StandsAt(top, Closing) <==> d == CloseNow && taken == 1)
    && (StandsAt(top, WantExit) <==> d.Exit? && taken == 0)
    && (StandsAt(top, Exiting) <==> d.Exit? && taken == 1)
    && (d.Exit? && taken <= 1 ==> top.value.closeAtEnd == d.close)
  }

  /** What is left when the top activation ends has an activation of `send` on top that is running. */
  predicate Resumed(top: Option<Frame>) { top.None? || StandsAt(top, Running) }

  lemma {:induction false} PopResumes(u: State, t: Tid)
    requires Inv(u) && t < |u.stacks| && u.stacks[t] != []
    ensures Resumed(TopOf(u.stacks[t][..|u.stacks[t]| - 1]))
  {
    assert ThreadOk(u.stacks[t], Held(u, t), u.socketLock == Some(t));
    if |u.stacks[t]| > 1 { assert u.stacks[t][|u.stacks[t]| - 2].Send?; }
  }

  /** Where the next statement of a `send` that does not end leads. */
  function FrameAfter(u: State, f: Frame, alive: bool, works: bool): Frame
    requires f.Send? && f.pc != Running && f.pc != Leaving
  {
    match f.pc
    case WantRequest => Send(WantSocket, false)
    case WantSocket => Send(Preparing, false)
    case Preparing => Send(if u.socket.Some? && alive then Marking else Connecting, false)
    case Connecting => Send(if works then Marking else Leaving, false)
    case Marking => Send(Writing, false)
    case Writing => if works && !u.shut then Send(Running, false) else Send(WantExit, true)
    case WantClose => Send(Closing, false)
    case Closing => Send(Running, false)
    case WantExit => Send(Exiting, f.closeAtEnd)
    case Exiting => Send(Leaving, false)
  }

  lemma {:induction false} NextFrame(u: State, t: Tid, f: Frame, alive: bool, works: bool)
    requires t < |u.stacks| && TopOf(u.stacks[t]) == Some(f) && f.Send? && f.pc != Running && f.pc != Leaving
    ensures Advance(u, t, f.pc, f.closeAtEnd, alive, works).stacks
            == u.stacks[t := u.stacks[t][..|u.stacks[t]| - 1] + [FrameAfter(u, f, alive, works)]]
  {
    match f.pc
    case WantRequest =>
    case WantSocket =>
    case Preparing =>
    case Connecting =>
    case Marking =>
    case Writing =>
    case WantClose =>
    case Closing =>
    case WantExit =>
    case Exiting =>
  }

  /** Where thread `t` stands after a step. */
  function TopAfter(u: State, t: Tid, c: Choice): Option<Frame>
    requires Enabled(u, t, c)
  {
    if t < |Do(u, t, c).stacks| then TopOf(Do(u, t, c).stacks[t]) else None
  }

  lemma {:induction false} SendMoves(u: State, t: Tid, c: Choice) returns (stack: seq<Frame>)
    requires Enabled(u, t, c) && c.Go? && Top(u.stacks[t]).Send?
    ensures Do(u, t, c).stacks == u.stacks[t := stack]
  {
    var f := Top(u.stacks[t]);
    stack := u.stacks[t][..|u.stacks[t]| - 1];
    if f.pc != Leaving {
      NextFrame(u, t, f, c.alive, c.works);
      stack := stack + [FrameAfter(u, f, c.alive, c.works)];
    }
  }

  /** A step changes the stack of its own thread only. */
  lemma {:induction false} StepMoves(u: State, t: Tid, c: Choice) returns (stack: seq<Frame>)
    requires Enabled(u, t, c)
    ensures Do(u, t, c).stacks == u.stacks[t := stack]
  {
    if c.Go? && Top(u.stacks[t]).Send? {
      stack := SendMoves(u, t, c);
    } else {
      stack := Do(u, t, c).stacks[t];
    }
  }

  lemma {:induction false} GoingOnObeys(u: State, t: Tid, c: Choice, f: Frame, d: Decision, taken: nat)
    requires Enabled(u, t, c) && c.Go? && f == Top(u.stacks[t]) && f.Send? && f.pc != Leaving
    requires Obeys(Some(f), d, taken)
    ensures var l := Later(Decided(u, t, c), d, taken); Obeys(TopAfter(u, t, c), l.0, l.1)
  {
    NextFrame(u, t, f, c.alive, c.works);
    var g := FrameAfter(u, f, c.alive, c.works);
    assert TopOf(u.stacks[t][..|u.stacks[t]| - 1] + [g]) == Some(g);
    FrameObeys(u, t, c, f, d, taken);
  }

  lemma {:induction false} FrameObeys(u: State, t: Tid, c: Choice, f: Frame, d: Decision, taken: nat)
    requires Enabled(u, t, c) && c.Go? && f == Top(u.stacks[t]) && f.Send? && f.pc != Running && f.pc != Leaving
    requires Obeys(Some(f), d, taken)
    ensures var l := Later(Decided(u, t, c), d, taken); Obeys(Some(FrameAfter(u, f, c.alive, c.works)), l.0, l.1)
  {}

  lemma {:induction false} EndingObeys(u: State, t: Tid, c: Choice, f: Frame, d: Decision, taken: nat)
    requires Inv(u) && Enabled(u, t, c) && c.Go? && f == Top(u.stacks[t]) && Obeys(Some(f), d, taken)
    requires f == Stop(true) || (f.Send? && f.pc == Leaving)
    ensures var l := Later(Decided(u, t, c), d, taken); Obeys(TopAfter(u, t, c), l.0, l.1)
  {
    PopResumes(u, t);
    assert Do(u, t, c).stacks[t] == u.stacks[t][..|u.stacks[t]| - 1];
  }

  /** A step obeys the last decision, or is the next one. */
  lemma {:induction false} StepObeys(u: State, t: Tid, c: Choice, d: Decision, taken: nat)
    requires Inv(u) && Enabled(u, t, c) && Obeys(TopOf(u.stacks[t]), d, taken)
    ensures var l := Later(Decided(u, t, c), d, taken); Obeys(TopAfter(u, t, c), l.0, l.1)
  {
    if c.Go? {
      var f := Top(u.stacks[t]);
      if f == Stop(true) || (f.Send? && f.pc == Leaving) {
        EndingObeys(u, t, c, f, d, taken);
      } else if f.Send? {
        GoingOnObeys(u, t, c, f, d, taken);
      }
    }
  }

  /** In every run each thread stands where its last decision has brought it. */
  lemma {:induction false} RunObeys(threads: nat, run: Schedule, n: nat, t: Tid)
    requires n <= |run| && t < threads
    ensures t < |Before(threads, run, n).stacks|
    ensures var (d, taken) := LastDecision(threads, run, n, t);
            Obeys(TopOf(Before(threads, run, n).stacks[t]), d, taken)
  {
    if n > 0 {
      RunObeys(threads, run, n - 1, t);
      BeforeIsSafe(threads, run, n - 1);
      OneStep(threads, run, n - 1);
      var (u, p, c) := (Before(threads, run, n - 1), run[n - 1].0, run[n - 1].1);
      var (d, taken) := LastDecision(threads, run, n - 1, t);
      if Enabled(u, p, c) {
        var stack := StepMoves(u, p, c);
        if p == t { StepObeys(u, t, c, d, taken); }
      }
    }
  }

  // ------------------------------------------------------- decisions are kept

  lemma {:induction false} DecisionStays(threads: nat, run: Schedule, t: Tid, i: nat, n: nat)
    requires i < n <= |run| && Takes(threads, run, i, t) && forall k :: i < k < n ==> !Takes(threads, run, k, t)
    ensures LastDecision(threads, run, n, t) == LastDecision(threads, run, i + 1, t)
  {
    if n > i + 1 { DecisionStays(threads, run, t, i, n - 1); }
  }

  /** Two steps after a decision: where it takes effect. */
  lemma {:induction false} DecisionIsDue(threads: nat, run: Schedule, t: Tid, i: nat, j: nat, k: nat)
    requires Follows(threads, run, t, i, j) && Follows(threads, run, t, j, k)
    requires Decided(Before(threads, run, i), t, run[i].1) != Nothing
    ensures t < threads && LastDecision(threads, run, k, t) == (Decided(Before(threads, run, i), t, run[i].1), 1)
    ensures Obeys(TopOf(Before(threads, run, k).stacks[t]), Decided(Before(threads, run, i), t, run[i].1), 1)
  {
    ThreadsStay(threads, run, i);
    var d := Decided(Before(threads, run, i), t, run[i].1);
    DecisionStays(threads, run, t, i, j);
    RunObeys(threads, run, j, t);
    DecisionStays(threads, run, t, j, k);
    RunObeys(threads, run, k, t);
  }

  lemma {:induction false} ThreadsStay(threads: nat, run: Schedule, n: nat)
    requires n <= |run|
    ensures |Before(threads, run, n).stacks| == threads
  {
    if n > 0 {
      ThreadsStay(threads, run, n - 1);
      OneStep(threads, run, n - 1);
      var (u, p, c) := (Before(threads, run, n - 1), run[n - 1].0, run[n - 1].1);
      if Enabled(u, p, c) { var stack := StepMoves(u, p, c); }
    }
  }

  // ------------------------------------------------------- the steps that close

  /** A `stop` in flight since the last request began: its flag is set. */
  predicate Flagged(threads: nat, run: Schedule, n: nat)
    requires n <= |run|
  {
    n > 0 &&
    var (u, t, c) := (Before(threads, run, n - 1), run[n - 1].0, run[n - 1].1);
    if Enabled(u, t, c) && c.Go? && StopsInFlight(u, t) then true
    else Flagged(threads, run, n - 1) && !(Enabled(u, t, c) && c.Go? && StandsAt(TopOf(u.stacks[t]), Preparing))
  }

  /** The decision takes effect and closes the socket, or a stop has asked for it. */
  predicate ClosesDue(d: Decision, flagged: bool) {
    d == CloseNow || d == Exit(true) || (d == Exit(false) && flagged)
  }

  /** Step `i` closes whatever socket is open: its thread answers to "Connection: close", to the end of a request
      that failed or was the last on its connection, to a failed first write, or to any end of a request after a
      `stop`; or it finds the socket dead before a request; or it is a `stop` with nothing in flight. */
  predicate ClosesAt(threads: nat, run: Schedule, i: nat) {
    i < |run| &&
    var (u, t, c) := (Before(threads, run, i), run[i].0, run[i].1);
    var (d, taken) := LastDecision(threads, run, i, t);
    Enabled(u, t, c) && c.Go? &&
    (|| (taken == 1 && ClosesDue(d, Flagged(threads, run, i)))
     || (StandsAt(TopOf(u.stacks[t]), Preparing) && !c.alive)
     || (TopOf(u.stacks[t]) == Some(Stop(true)) && u.inFlight <= 0))
  }

  /** In step `i` a `send` connects a socket. */
  predicate ConnectsAt(threads: nat, run: Schedule, i: nat) {
    i < |run| && Connects(Before(threads, run, i), run[i].0, run[i].1)
  }

  /** In step `i` a `send` connects a socket, and no step from there to step `n` closes one. */
  predicate ConnectsForGood(threads: nat, run: Schedule, i: nat, n: nat) {
    i < n && ConnectsAt(threads, run, i) && forall j :: i < j < n ==> !ClosesAt(threads, run, j)
  }

  // what a single step does to the socket

  predicate FrameCloses(u: State, f: Frame, alive: bool) {
    match f
    case Stop(inside) => inside && u.inFlight <= 0
    case Send(pc, closeAtEnd) =>
      pc == Closing || (pc == Preparing && !alive) || (pc == Exiting && (u.shouldClose || closeAtEnd))
  }

  lemma {:induction false} AdvanceSocket(u: State, t: Tid, f: Frame, alive: bool, works: bool)
    requires t < |u.stacks| && u.stacks[t] != [] && f.Send?
    ensures Advance(u, t, f.pc, f.closeAtEnd, alive, works).socket
            == if f.pc == Connecting && works then Some(u.nextSocket)
               else if FrameCloses(u, f, alive) then None else u.socket
    ensures Advance(u, t, f.pc, f.closeAtEnd, alive, works).shouldClose == (u.shouldClose && f.pc != Preparing)
  {
    match f.pc
    case Preparing =>
    case Connecting =>
    case Closing =>
    case Exiting =>
    case _ =>
  }

  lemma {:induction false} StepSocket(u: State, t: Tid, c: Choice)
    requires Enabled(u, t, c)
    ensures Do(u, t, c).socket
            == if Connects(u, t, c) then Some(u.nextSocket)
               else if c.Go? && FrameCloses(u, Top(u.stacks[t]), c.alive) then None else u.socket
    ensures Do(u, t, c).shouldClose
            == if c.Go? && StopsInFlight(u, t) then true
               else u.shouldClose && !(c.Go? && StandsAt(TopOf(u.stacks[t]), Preparing))
  {
    if c.Go? && Top(u.stacks[t]).Send? { AdvanceSocket(u, t, Top(u.stacks[t]), c.alive, c.works); }
  }

  lemma {:induction false} FlagIsFlagged(threads: nat, run: Schedule, n: nat)
    requires n <= |run|
    ensures Before(threads, run, n).shouldClose == Flagged(threads, run, n)
  {
    if n > 0 {
      FlagIsFlagged(threads, run, n - 1);
      OneStep(threads, run, n - 1);
      var (u, t, c) := (Before(threads, run, n - 1), run[n - 1].0, run[n - 1].1);
      if Enabled(u, t, c) { StepSocket(u, t, c); }
    }
  }

  lemma {:induction false} DueIsFrame(u: State, f: Frame, alive: bool, d: Decision, taken: nat)
    requires Obeys(Some(f), d, taken)
    ensures FrameCloses(u, f, alive) <==>
              || (taken == 1 && ClosesDue(d, u.shouldClose)) || (StandsAt(Some(f), Preparing) && !alive)
              || (f == Stop(true) && u.inFlight <= 0)
  {}

  /** What a step of a run does to the open socket. */
  lemma {:induction false} SocketAfter(threads: nat, run: Schedule, i: nat)
    requires i < |run|
    ensures Before(threads, run, i + 1).socket
            == if ConnectsAt(threads, run, i) then Some(Before(threads, run, i).nextSocket)
               else if ClosesAt(threads, run, i) then None else Before(threads, run, i).socket
    ensures !(ConnectsAt(threads, run, i) && ClosesAt(threads, run, i))
  {
    OneStep(threads, run, i);
    var (u, t, c) := (Before(threads, run, i), run[i].0, run[i].1);
    if Enabled(u, t, c) {
      ThreadsStay(threads, run, i);
      StepSocket(u, t, c);
      RunObeys(threads, run, i, t);
      FlagIsFlagged(threads, run, i);
      var (d, taken) := LastDecision(threads, run, i, t);
      if c.Go? { DueIsFrame(u, Top(u.stacks[t]), c.alive, d, taken); }
    }
  }

  // --------------------------------------------------------------- the answers

  predicate AllClosed(u: State) {
    u.socket == None && forall k: SocketId :: k < u.nextSocket ==> k in u.closed
  }

  /** The end of a request: two steps of its thread after it, the scope exit closes the socket if the request
      failed, if its connection was to be closed, or if a `stop` came; and only then. */
  lemma {:induction false} EndOfRequest(threads: nat, run: Schedule, t: Tid, i: nat, j: nat, k: nat)
    requires Follows(threads, run, t, i, j) && Follows(threads, run, t, j, k) && run[i].1.Respond?
    ensures var (ret, closeConnection) := (run[i].1.ret, run[i].1.closeConnection);
            var (u, v) := (Before(threads, run, k), Before(threads, run, k + 1));
            if !ret || closeConnection || Flagged(threads, run, k) then AllClosed(v)
            else v.socket == u.socket && v.closed == u.closed
  {
    DecisionIsDue(threads, run, t, i, j, k);
    DueStep(threads, run, t, k);
  }

  /** A first write that fails, on a socket that is shut down as well as on any other, closes it in the same way. */
  lemma {:induction false} FailedWriteCloses(threads: nat, run: Schedule, t: Tid, i: nat, j: nat, k: nat)
    requires Follows(threads, run, t, i, j) && Follows(threads, run, t, j, k)
    requires FirstWrite(Before(threads, run, i), t) && (!run[i].1.works || Before(threads, run, i).shut)
    ensures AllClosed(Before(threads, run, k + 1))
  {
    DecisionIsDue(threads, run, t, i, j, k);
    DueStep(threads, run, t, k);
  }

  /** "Connection: close" closes the socket while the request goes on. */
  lemma {:induction false} CloseAnswerCloses(threads: nat, run: Schedule, t: Tid, i: nat, j: nat, k: nat)
    requires Follows(threads, run, t, i, j) && Follows(threads, run, t, j, k) && run[i].1.AskClose?
    ensures AllClosed(Before(threads, run, k + 1))
  {
    DecisionIsDue(threads, run, t, i, j, k);
    DueStep(threads, run, t, k);
  }

  lemma {:induction false} DueStep(threads: nat, run: Schedule, t: Tid, k: nat)
    requires t < threads && Takes(threads, run, k, t)
    requires var (d, taken) := LastDecision(threads, run, k, t); taken == 1 && d != Nothing
    ensures var d := LastDecision(threads, run, k, t).0;
            var (u, v) := (Before(threads, run, k), Before(threads, run, k + 1));
            if ClosesDue(d, Flagged(threads, run, k)) then AllClosed(v)
            else v.socket == u.socket && v.closed == u.closed
  {
    SocketAfter(threads, run, k);
    RunObeys(threads, run, k, t);
    BeforeIsSafe(threads, run, k);
    BeforeIsSafe(threads, run, k + 1);
    OneStep(threads, run, k);
    var (d, taken) := LastDecision(threads, run, k, t);
    if !ClosesDue(d, Flagged(threads, run, k)) {
      FlagIsFlagged(threads, run, k);
      KeptSocket(Before(threads, run, k), t, run[k].1);
    }
  }

  lemma {:induction false} KeptSocket(u: State, t: Tid, c: Choice)
    requires Enabled(u, t, c) && TopOf(u.stacks[t]) == Some(Send(Exiting, false)) && !u.shouldClose
    ensures Do(u, t, c).socket == u.socket && Do(u, t, c).closed == u.closed
  {}

  // ------------------------------------------------------------ the assertions

  /** What the assertions of the client demand of a step: a socket is closed only with no request in flight or by the
      thread of those in flight, that thread alone counts a further one, and the count does not go below zero. */
  predicate Allowed(u: State, t: Tid, c: Choice) {
    && (Enabled(u, t, c) && c.Go?
        && (FrameCloses(u, Top(u.stacks[t]), c.alive) || StandsAt(TopOf(u.stacks[t]), Exiting))
        ==> u.inFlight == 0 || u.fromThread == Some(t))
    && (Enabled(u, t, c) && c.Go? && StandsAt(TopOf(u.stacks[t]), Marking) && u.inFlight > 0
        ==> u.fromThread == Some(t))
    && (Enabled(u, t, c) && c.Go? && StandsAt(TopOf(u.stacks[t]), Exiting) ==> u.inFlight > 0)
  }

  lemma {:induction false} StepIsAllowed(u: State, t: Tid, c: Choice)
    requires Inv(u)
    ensures Allowed(u, t, c)
  {
    if Enabled(u, t, c) && c.Go? {
      TopFacts(u, t);
      DepthOfPop(u.stacks[t]);
    }
  }

  /** In every interleaving every step meets the assertions. */
  lemma {:induction false} AssertionsHold(threads: nat, run: Schedule, i: nat)
    requires i < |run|
    ensures Allowed(Before(threads, run, i), run[i].0, run[i].1)
  {
    BeforeIsSafe(threads, run, i);
    StepIsAllowed(Before(threads, run, i), run[i].0, run[i].1);
  }

  // --------------------------------------------------------- which socket is open

  lemma {:induction false} LaterStep(threads: nat, run: Schedule, i: nat, m: nat)
    requires m < |run| && !(ConnectsAt(threads, run, m) && ClosesAt(threads, run, m))
    ensures ConnectsForGood(threads, run, i, m + 1) <==>
            if i == m then ConnectsAt(threads, run, m)
            else ConnectsForGood(threads, run, i, m) && !ClosesAt(threads, run, m)
  {}

  /** In every run a socket is open exactly when a `send` has connected one and no later step was one that closes;
      it is that one. */
  lemma {:induction false} OpenExactly(threads: nat, run: Schedule, n: nat)
    requires n <= |run|
    ensures forall i: nat :: ConnectsForGood(threads, run, i, n) ==>
              Before(threads, run, n).socket == Some(Before(threads, run, i).nextSocket)
    ensures Before(threads, run, n).socket.Some? ==> exists i: nat :: ConnectsForGood(threads, run, i, n)
  {
    if n > 0 {
      var m: nat := n - 1;
      OpenExactly(threads, run, m);
      SocketAfter(threads, run, m);
      forall i: nat ensures ConnectsForGood(threads, run, i, n) <==>
            if i == m then ConnectsAt(threads, run, m)
            else ConnectsForGood(threads, run, i, m) && !ClosesAt(threads, run, m)
      { LaterStep(threads, run, i, m); }
      if ConnectsAt(threads, run, m) {
        ConnectsFromNone(threads, run, m);
        assert ConnectsForGood(threads, run, m, n);
      }
    }
  }

  lemma {:induction false} ConnectsFromNone(threads: nat, run: Schedule, m: nat)
    requires ConnectsAt(threads, run, m)
    ensures Before(threads, run, m).socket == None
  {
    BeforeIsSafe(threads, run, m);
    TopFacts(Before(threads, run, m), run[m].0);
    assert IsConnecting(Before(threads, run, m));
  }

  // ------------------------------------------------------------ behind a `stop`

  /** Step `m` is the critical section of a `stop` that finds requests in flight. */
  predicate StopsAt(threads: nat, run: Schedule, m: nat) {
    m < |run| && run[m].1.Go? && StopsInFlight(Before(threads, run, m), run[m].0)
  }

  lemma {:induction false} StopRun(threads: nat, run: Schedule, m: nat)
    requires StopsAt(threads, run, m)
    ensures var s0 := StopInside(Before(threads, run, m), run[m].0);
            Before(threads, run, m + 1) == s0 && After(Init(threads), run) == After(s0, run[m + 1..])
  {
    OneStep(threads, run, m);
    assert run == run[..m + 1] + run[m + 1..];
    AfterConcat(Init(threads), run[..m + 1], run[m + 1..]);
  }

  /** Socket numbers only grow. */
  lemma {:induction false} NumbersGrow(threads: nat, run: Schedule, i: nat, m: nat)
    requires i <= m <= |run|
    ensures Before(threads, run, i).nextSocket <= Before(threads, run, m).nextSocket
    ensures i < m && ConnectsAt(threads, run, i) ==>
              Before(threads, run, i).nextSocket < Before(threads, run, m).nextSocket
  {
    if i < m {
      NumbersGrow(threads, run, i, m - 1);
      OneStep(threads, run, m - 1);
      var (u, t, c) := (Before(threads, run, m - 1), run[m - 1].0, run[m - 1].1);
      if Enabled(u, t, c) { StepKeepsOlderOut(u, t, c, 0); }
    }
  }

  /** Exactly when the client is left with an open socket behind a `stop` in flight, once no request is in
      flight: a `send` whose first critical section came after the `stop` has connected one, and no later step
      was one that closes. */
  lemma {:induction false} StopLeavesOpenExactly(threads: nat, run: Schedule, m: nat)
    requires StopsAt(threads, run, m) && After(Init(threads), run).inFlight == 0
    ensures After(Init(threads), run).socket.Some? <==>
            exists i: nat :: ConnectsForGood(threads, run, i, |run|) && i > m
  {
    var (n, s) := (|run|, After(Init(threads), run));
    assert run[..n] == run;
    OpenExactly(threads, run, n);
    if s.socket.Some? {
      var i: nat :| ConnectsForGood(threads, run, i, n);
      StopRun(threads, run, m);
      StopIsHonoured(threads, run[..m], run[m].0, run[m + 1..]);
      SocketsAreClosed(threads, run);
      if i < m {
        NumbersGrow(threads, run, i, m);
        OneStep(threads, run, m);
      }
      assert i != m;
    }
  }
}
