/** The socket-in-flight rules of `ClientImpl` in httplib.h (built without SSL): `send` with nested sends
    (redirects), and `stop`, called by any number of threads.

    Every thread has a stack of activations; each step of a run lets one thread do one thing, so a run is
    any interleaving. `request_mutex_` is recursive, `socket_mutex_` is not. The assertions of
    `shutdown_ssl`, `close_socket` and `send_` are recorded in `failed`. Sockets are numbered in the order in
    which they are connected; one that `stop` has shut down can carry no request that starts later, but the
    liveness probe may still find buffered bytes in it. */
module ClientInFlight {
  import opened Wrappers

  type Tid = nat
  type SocketId = nat

  /** Where an activation of `send` stands. */
  datatype SendPc =
    | WantRequest   // before locking request_mutex_
    | WantSocket    // before the first critical section of send_
    | Preparing     // in it: reset the flag, drop a dead socket
    | Connecting    // in it: open a new socket
    | Marking       // in it: count the request
    | Writing       // outside: process_socket, up to the first write of the request
    | Running       // the request is written: its body, the response, callbacks, redirects
    | WantClose     // the response asks to close: before locking socket_mutex_
    | Closing       // in that critical section
    | WantExit      // scope exit, before locking socket_mutex_
    | Exiting       // in the last critical section
    | Leaving       // before unlocking request_mutex_

  datatype Frame = Send(pc: SendPc, closeAtEnd: bool) | Stop(inside: bool)

  datatype State = State(
    stacks: seq<seq<Frame>>,          // one per thread, the running activation last
    requestOwner: Option<Tid>,
    requestDepth: nat,
    socketLock: Option<Tid>,
    inFlight: int,
    fromThread: Option<Tid>,
    shouldClose: bool,
    socket: Option<SocketId>,
    nextSocket: SocketId,
    shut: bool,                       // the open socket has been shut down by stop()
    closed: set<SocketId>,            // history: the sockets that have been closed
    failed: bool                      // history: an assertion did not hold
  )

  /** What the environment decides in a step. */
  datatype Choice =
    | CallSend
    | CallStop
    | Respond(ret: bool, closeConnection: bool)   // the handler is done
    | AskClose                                    // the response says "Connection: close"
    | Go(alive: bool, works: bool)                // the next statement; is_socket_alive, connect or write

  function Init(threads: nat): State {
    State(seq(threads, _ => []), None, 0, None, 0, None, false, None, 0, false, {}, false)
  }

  function At(pc: SendPc): Frame { Send(pc, false) }

  function Top(stack: seq<Frame>): Frame
    requires stack != []
  {
    stack[|stack| - 1]
  }

  function SetTop(s: State, t: Tid, f: Frame): State
    requires t < |s.stacks| && s.stacks[t] != []
  {
    s.(stacks := s.stacks[t := s.stacks[t][..|s.stacks[t]| - 1] + [f]])
  }

  function Push(s: State, t: Tid, f: Frame): State
    requires t < |s.stacks|
  {
    s.(stacks := s.stacks[t := s.stacks[t] + [f]])
  }

  function Pop(s: State, t: Tid): State
    requires t < |s.stacks| && s.stacks[t] != []
  {
    s.(stacks := s.stacks[t := s.stacks[t][..|s.stacks[t]| - 1]])
  }

  /** The assertion shared by `shutdown_ssl` and `close_socket`. */
  predicate MayClose(s: State, t: Tid) {
    s.inFlight == 0 || s.fromThread == Some(t)
  }

  /** `shutdown_ssl`, `shutdown_socket` and `close_socket` together. */
  function CloseSocket(s: State, t: Tid): State {
    s.(failed := s.failed || !MayClose(s, t), socket := None, shut := false,
       closed := s.closed + if s.socket.Some? then {s.socket.value} else {})
  }

  /** A new activation can be started by an idle thread or from inside a request. */
  predicate CanCall(stack: seq<Frame>) {
    stack == [] || (Top(stack).Send? && Top(stack).pc == Running)
  }

  predicate Enabled(s: State, t: Tid, c: Choice) {
    t < |s.stacks| &&
    var stack := s.stacks[t];
    match c
    case CallSend => CanCall(stack)
    case CallStop => CanCall(stack)
    case Respond(_, _) => stack != [] && Top(stack).Send? && Top(stack).pc == Running
    case AskClose => stack != [] && Top(stack).Send? && Top(stack).pc == Running
    case Go(_, _) =>
      stack != [] &&
      match Top(stack)
      case Stop(inside) => inside || s.socketLock == None
      case Send(pc, _) =>
        match pc
        case WantRequest => s.requestOwner == None || s.requestOwner == Some(t)
        case WantSocket => s.socketLock == None
        case WantClose => s.socketLock == None
        case WantExit => s.socketLock == None
        case Running => false
        case _ => true
  }

  /** The effect of an enabled step of thread `t`. */
  function Do(s: State, t: Tid, c: Choice): State
    requires Enabled(s, t, c)
  {
    match c
    case CallSend => Push(s, t, Send(WantRequest, false))
    case CallStop => Push(s, t, Stop(false))
    case Respond(ret, closeConnection) => SetTop(s, t, Send(WantExit, closeConnection || !ret))
    case AskClose => SetTop(s, t, Send(WantClose, false))
    case Go(alive, works) =>
      match Top(s.stacks[t])
      case Stop(inside) => if inside then StopInside(s, t) else SetTop(s, t, Stop(true)).(socketLock := Some(t))
      case Send(pc, closeAtEnd) => Advance(s, t, pc, closeAtEnd, alive, works)
  }

  /** The critical section of `stop`: in flight it only shuts the socket down and sets the flag. */
  function StopInside(s: State, t: Tid): State
    requires t < |s.stacks| && s.stacks[t] != []
  {
    var u := Pop(s, t).(socketLock := None);
    if s.inFlight > 0 then u.(shouldClose := true, shut := s.socket.Some?) else CloseSocket(u, t)
  }

  function Advance(s: State, t: Tid, pc: SendPc, closeAtEnd: bool, alive: bool, works: bool): State
    requires t < |s.stacks| && s.stacks[t] != []
  {
    match pc
    case WantRequest =>
      SetTop(s, t, Send(WantSocket, false)).(requestOwner := Some(t), requestDepth := s.requestDepth + 1)
    case WantSocket => SetTop(s, t, Send(Preparing, false)).(socketLock := Some(t))
    case Preparing =>
      var u := s.(shouldClose := false);
      if s.socket.Some? && alive then SetTop(u, t, Send(Marking, false))
      else if s.socket.Some? then SetTop(CloseSocket(u, t), t, Send(Connecting, false))
      else SetTop(u, t, Send(Connecting, false))
    case Connecting =>
      if works then
        SetTop(s, t, Send(Marking, false)).(socket := Some(s.nextSocket), shut := false, nextSocket := s.nextSocket + 1)
      else SetTop(s, t, Send(Leaving, false)).(socketLock := None)
    case Marking =>
      SetTop(s, t, Send(Writing, false)).(
        failed := s.failed || (s.inFlight > 1 && s.fromThread != Some(t)),
        inFlight := s.inFlight + 1, fromThread := Some(t), socketLock := None)
    case Writing => SetTop(s, t, if works && !s.shut then Send(Running, false) else Send(WantExit, true))
    case Running => s
    case WantClose => SetTop(s, t, Send(Closing, false)).(socketLock := Some(t))
    case Closing => SetTop(CloseSocket(s, t), t, Send(Running, false)).(socketLock := None)
    case WantExit => SetTop(s, t, Send(Exiting, closeAtEnd)).(socketLock := Some(t))
    case Exiting => ExitInside(SetTop(s, t, Send(Leaving, false)), t, closeAtEnd)
    case Leaving =>
      var depth := if s.requestDepth > 0 then s.requestDepth - 1 else 0;
      Pop(s, t).(requestDepth := depth, requestOwner := if depth == 0 then None else s.requestOwner)
  }

  /** The scope-exit section: uncount the request, then close if anyone wants it. */
  function ExitInside(s: State, t: Tid, closeAtEnd: bool): State {
    var left := s.inFlight - 1;
    var u := if left <= 0 then s.(inFlight := left, fromThread := None, failed := s.failed || left != 0)
             else s.(inFlight := left);
    (if s.shouldClose || closeAtEnd then CloseSocket(u, t) else u).(socketLock := None)
  }

  // ------------------------------------------------------------------ invariant

  /** Frames that hold `request_mutex_`. */
  predicate Holds(f: Frame) { f.Send? && f.pc != WantRequest }

  /** Frames counted in `inFlight`. */
  predicate Counted(f: Frame) {
    f.Send? && (f.pc == Writing || f.pc == Running || f.pc == WantClose || f.pc == Closing || f.pc == WantExit
                || f.pc == Exiting)
  }

  /** Frames inside a critical section of `socket_mutex_`. */
  predicate InSection(f: Frame) {
    match f
    case Stop(inside) => inside
    case Send(pc, _) => pc == Preparing || pc == Connecting || pc == Marking || pc == Closing || pc == Exiting
  }

  /** Frames whose scope exit is bound to close a socket that is shut down by now. */
  predicate Doomed(f: Frame) {
    f.Send? && (f.pc == Marking || f.pc == Writing || ((f.pc == WantExit || f.pc == Exiting) && f.closeAtEnd))
  }

  function Depth(stack: seq<Frame>): nat {
    if stack == [] then 0 else Depth(stack[..|stack| - 1]) + if Holds(Top(stack)) then 1 else 0
  }

  /** How deep a thread's sends in flight are nested. */
  function Nesting(stack: seq<Frame>): (n: nat)
    ensures n <= Depth(stack)
  {
    if stack == [] then 0 else Nesting(stack[..|stack| - 1]) + if Counted(Top(stack)) then 1 else 0
  }

  predicate StackOk(stack: seq<Frame>) {
    forall i :: 0 <= i < |stack| - 1 ==> stack[i].Send? && stack[i].pc == Running
  }

  /** One thread: `request_mutex_` is held as often as its frames say, and `socket_mutex_` exactly inside
      critical sections. */
  predicate ThreadOk(stack: seq<Frame>, held: nat, locked: bool) {
    StackOk(stack) && Depth(stack) == held && (locked <==> stack != [] && InSection(Top(stack)))
  }

  function Held(s: State, t: Tid): nat {
    if s.requestOwner == Some(t) then s.requestDepth else 0
  }

  predicate ThreadsOk(s: State) {
    forall t :: 0 <= t < |s.stacks| ==> ThreadOk(s.stacks[t], Held(s, t), s.socketLock == Some(t))
  }

  predicate SharedOk(s: State) {
    && (s.requestOwner.None? ==> s.requestDepth == 0)
    && (s.requestOwner.Some? ==> s.requestOwner.value < |s.stacks| && s.requestDepth > 0)
    // the count is the owner's nesting depth, and the recorded thread is the owner
    && s.inFlight == (if s.requestOwner.Some? then Nesting(s.stacks[s.requestOwner.value]) else 0)
    && s.fromThread == (if s.inFlight > 0 then s.requestOwner else None)
    && (s.socketLock.Some? ==> s.socketLock.value < |s.stacks|)
    && !s.failed
  }

  /** Some activation of the thread in flight will close the socket. */
  predicate WillClose(s: State) {
    || s.shouldClose
    || (s.requestOwner.Some? && s.requestOwner.value < |s.stacks| && s.stacks[s.requestOwner.value] != []
        && Doomed(Top(s.stacks[s.requestOwner.value])))
  }

  /** Inside a critical section, about to connect. */
  predicate IsConnecting(s: State) {
    && s.socketLock.Some? && s.socketLock.value < |s.stacks| && s.stacks[s.socketLock.value] != []
    && Top(s.stacks[s.socketLock.value]).Send? && Top(s.stacks[s.socketLock.value]).pc == Connecting
  }

  /** Every socket ever connected is open or has been closed, and a socket that is shut down is on its way
      out. */
  ghost predicate SocketsOk(s: State) {
    && (s.socket.Some? ==> s.socket.value < s.nextSocket)
    && (forall k: SocketId :: k in s.closed <==> k < s.nextSocket && s.socket != Some(k))
    && (IsConnecting(s) ==> s.socket == None)
    && (s.shut ==> s.socket.Some? && s.inFlight > 0 && WillClose(s))
  }

  ghost predicate Inv(s: State) {
    ThreadsOk(s) && SharedOk(s) && SocketsOk(s)
  }

  /** A step of thread `t` changes its own stack, and the locks only to or from `t`. */
  predicate OnlyThread(s: State, t: Tid, stack: seq<Frame>, u: State) {
    && t < |s.stacks| && u.stacks == s.stacks[t := stack]
    && (u.requestOwner == s.requestOwner || (s.requestOwner == None && u.requestOwner == Some(t))
        || (s.requestOwner == Some(t) && u.requestOwner == None))
    && (u.requestDepth == s.requestDepth || u.requestOwner == Some(t) || u.requestOwner == None)
    && (u.socketLock == s.socketLock || (s.socketLock == None && u.socketLock == Some(t))
        || (s.socketLock == Some(t) && u.socketLock == None))
  }

  lemma {:induction false} OthersStayOk(s: State, t: Tid, stack: seq<Frame>, u: State)
    requires ThreadsOk(s) && OnlyThread(s, t, stack, u)
    requires ThreadOk(stack, Held(u, t), u.socketLock == Some(t))
    ensures ThreadsOk(u)
  {
    forall k | 0 <= k < |u.stacks| ensures ThreadOk(u.stacks[k], Held(u, k), u.socketLock == Some(k)) {
      assert k != t ==> Held(u, k) == Held(s, k) && (u.socketLock == Some(k) <==> s.socketLock == Some(k));
    }
  }

  lemma {:induction false} InitInv(threads: nat)
    ensures Inv(Init(threads))
  {}

  // -------------------------------------------- stacks change at the top only

  lemma {:induction false} DepthOfTop(stack: seq<Frame>, f: Frame)
    requires stack != []
    ensures var u := stack[..|stack| - 1] + [f];
            && Depth(u) == Depth(stack[..|stack| - 1]) + (if Holds(f) then 1 else 0)
            && Nesting(u) == Nesting(stack[..|stack| - 1]) + (if Counted(f) then 1 else 0)
            && (StackOk(stack) ==> StackOk(u) && StackOk(stack[..|stack| - 1]))
  {
    var u := stack[..|stack| - 1] + [f];
    assert u[..|u| - 1] == stack[..|stack| - 1];
  }

  lemma {:induction false} DepthOfPush(stack: seq<Frame>, f: Frame)
    ensures var u := stack + [f];
            && Depth(u) == Depth(stack) + (if Holds(f) then 1 else 0)
            && Nesting(u) == Nesting(stack) + (if Counted(f) then 1 else 0)
            && (StackOk(stack) && CanCall(stack) ==> StackOk(u))
  {
    assert (stack + [f])[..|stack|] == stack;
  }

  lemma {:induction false} DepthOfPop(stack: seq<Frame>)
    requires stack != []
    ensures Depth(stack) == Depth(stack[..|stack| - 1]) + if Holds(Top(stack)) then 1 else 0
    ensures Nesting(stack) == Nesting(stack[..|stack| - 1]) + if Counted(Top(stack)) then 1 else 0
    ensures StackOk(stack) ==> StackOk(stack[..|stack| - 1])
    ensures StackOk(stack) && |stack| > 1 ==> Top(stack[..|stack| - 1]) == stack[|stack| - 2]
                                              && !InSection(Top(stack[..|stack| - 1]))
  {}

  /** What the invariant says about the thread whose activation holds the request lock. */
  lemma {:induction false} TopFacts(s: State, t: Tid)
    requires Inv(s) && t < |s.stacks| && s.stacks[t] != []
    ensures Holds(Top(s.stacks[t])) ==>
              s.requestOwner == Some(t) && s.requestDepth == Depth(s.stacks[t]) && s.inFlight == Nesting(s.stacks[t])
    ensures Counted(Top(s.stacks[t])) ==> s.inFlight >= 1 && s.fromThread == Some(t)
    ensures InSection(Top(s.stacks[t])) <==> s.socketLock == Some(t)
    ensures Holds(Top(s.stacks[t])) ==> MayClose(s, t)
  {
    DepthOfPop(s.stacks[t]);
  }

  lemma {:induction false} CallKeepsInv(s: State, t: Tid, f: Frame)
    requires Inv(s) && t < |s.stacks| && CanCall(s.stacks[t])
    requires !Holds(f) && !Counted(f) && !InSection(f)
    ensures Inv(Push(s, t, f))
  {
    var u := Push(s, t, f);
    DepthOfPush(s.stacks[t], f);
    assert ThreadOk(s.stacks[t], Held(s, t), s.socketLock == Some(t));
    OthersStayOk(s, t, s.stacks[t] + [f], u);
  }

  /** Replacing the top by a frame of the same standing, as all steps outside critical sections do. */
  lemma {:induction false} MoveKeepsInv(s: State, t: Tid, f: Frame)
    requires Inv(s) && t < |s.stacks| && s.stacks[t] != [] && !InSection(Top(s.stacks[t])) && !InSection(f)
    requires Holds(f) == Holds(Top(s.stacks[t])) && Counted(f) == Counted(Top(s.stacks[t]))
    requires s.shut && Doomed(Top(s.stacks[t])) ==> Doomed(f)
    ensures Inv(SetTop(s, t, f))
  {
    DepthOfPop(s.stacks[t]);
    DepthOfTop(s.stacks[t], f);
    OthersStayOk(s, t, s.stacks[t][..|s.stacks[t]| - 1] + [f], SetTop(s, t, f));
  }

  lemma {:induction false} EnterKeepsSockets(s: State, t: Tid, f: Frame)
    requires SocketsOk(s) && t < |s.stacks| && s.stacks[t] != [] && (f.Send? ==> f.pc != Connecting)
    requires s.shut && Doomed(Top(s.stacks[t])) ==> Doomed(f)
    ensures SocketsOk(SetTop(s, t, f).(socketLock := Some(t)))
  {}

  /** Entering a critical section of `socket_mutex_`. */
  lemma {:induction false} EnterKeepsInv(s: State, t: Tid, f: Frame)
    requires Inv(s) && t < |s.stacks| && s.stacks[t] != [] && s.socketLock == None && InSection(f)
    requires f.Send? ==> f.pc != Connecting
    requires Holds(f) == Holds(Top(s.stacks[t])) && Counted(f) == Counted(Top(s.stacks[t]))
    requires s.shut && Doomed(Top(s.stacks[t])) ==> Doomed(f)
    ensures Inv(SetTop(s, t, f).(socketLock := Some(t)))
  {
    DepthOfPop(s.stacks[t]);
    DepthOfTop(s.stacks[t], f);
    OthersStayOk(s, t, s.stacks[t][..|s.stacks[t]| - 1] + [f], SetTop(s, t, f).(socketLock := Some(t)));
    EnterKeepsSockets(s, t, f);
  }

  /** A step inside or out of a critical section that keeps the counts. */
  lemma {:induction false} SectionKeepsInv(s: State, t: Tid, f: Frame, u: State)
    requires Inv(s) && t < |s.stacks| && s.stacks[t] != [] && s.socketLock == Some(t)
    requires Holds(f) == Holds(Top(s.stacks[t])) && Counted(f) == Counted(Top(s.stacks[t]))
    requires u == SetTop(s, t, f).(socketLock := u.socketLock, shouldClose := u.shouldClose, socket := u.socket,
                                   nextSocket := u.nextSocket, shut := u.shut, closed := u.closed)
    requires u.socketLock == if InSection(f) then Some(t) else None
    requires SocketsOk(u)
    ensures Inv(u)
  {
    DepthOfPop(s.stacks[t]);
    DepthOfTop(s.stacks[t], f);
    OthersStayOk(s, t, s.stacks[t][..|s.stacks[t]| - 1] + [f], u);
  }

  lemma {:induction false} LockRequestKeepsInv(s: State, t: Tid)
    requires Inv(s) && t < |s.stacks| && s.stacks[t] != []
    requires Top(s.stacks[t]).Send? && Top(s.stacks[t]).pc == WantRequest
    requires s.requestOwner == None || s.requestOwner == Some(t)
    ensures Inv(Advance(s, t, WantRequest, false, false, false))
  {
    DepthOfPop(s.stacks[t]);
    DepthOfTop(s.stacks[t], Send(WantSocket, false));
    OthersStayOk(s, t, s.stacks[t][..|s.stacks[t]| - 1] + [Send(WantSocket, false)],
                 Advance(s, t, WantRequest, false, false, false));
  }

  lemma {:induction false} DeadSocketKeepsInv(s: State, t: Tid)
    requires Inv(s) && t < |s.stacks| && s.stacks[t] != [] && s.socketLock == Some(t) && MayClose(s, t)
    requires Top(s.stacks[t]).Send? && Top(s.stacks[t]).pc == Preparing && s.socket.Some?
    ensures Inv(Advance(s, t, Preparing, false, false, false))
  {
    SectionKeepsInv(s, t, At(Connecting), Advance(s, t, Preparing, false, false, false));
  }

  lemma {:induction false} LiveSocketKeepsInv(s: State, t: Tid)
    requires Inv(s) && t < |s.stacks| && s.stacks[t] != [] && s.socketLock == Some(t) && s.requestOwner == Some(t)
    requires Top(s.stacks[t]).Send? && Top(s.stacks[t]).pc == Preparing && s.socket.Some?
    ensures Inv(Advance(s, t, Preparing, false, true, false))
  {
    SectionKeepsInv(s, t, At(Marking), Advance(s, t, Preparing, false, true, false));
  }

  lemma {:induction false} PreparingKeepsInv(s: State, t: Tid, closeAtEnd: bool, alive: bool)
    requires Inv(s) && t < |s.stacks| && s.stacks[t] != []
    requires Top(s.stacks[t]).Send? && Top(s.stacks[t]).pc == Preparing
    ensures Inv(Advance(s, t, Preparing, closeAtEnd, alive, false))
  {
    TopFacts(s, t);
    if s.socket.None? {
      SectionKeepsInv(s, t, At(Connecting), Advance(s, t, Preparing, closeAtEnd, alive, false));
    } else if alive {
      LiveSocketKeepsInv(s, t);
    } else {
      DeadSocketKeepsInv(s, t);
    }
  }

  /** A new socket takes the place of none. */
  lemma {:induction false} NewSocketIsCounted(n: SocketId, closed: set<SocketId>)
    requires forall k: SocketId :: k in closed <==> k < n && None != Some(k)
    ensures forall k: SocketId :: k in closed <==> k < n + 1 && Some(n) != Some(k)
  {}

  lemma {:induction false} ConnectedKeepsInv(s: State, t: Tid, closeAtEnd: bool)
    requires Inv(s) && t < |s.stacks| && s.stacks[t] != [] && s.socketLock == Some(t) && s.socket == None
    requires Top(s.stacks[t]).Send? && Top(s.stacks[t]).pc == Connecting
    ensures Inv(Advance(s, t, Connecting, closeAtEnd, false, true))
  {
    NewSocketIsCounted(s.nextSocket, s.closed);
    SectionKeepsInv(s, t, At(Marking), Advance(s, t, Connecting, closeAtEnd, false, true));
  }

  lemma {:induction false} ConnectingKeepsInv(s: State, t: Tid, closeAtEnd: bool, works: bool)
    requires Inv(s) && t < |s.stacks| && s.stacks[t] != []
    requires Top(s.stacks[t]).Send? && Top(s.stacks[t]).pc == Connecting
    ensures Inv(Advance(s, t, Connecting, closeAtEnd, false, works))
  {
    TopFacts(s, t);
    assert IsConnecting(s);
    if works {
      ConnectedKeepsInv(s, t, closeAtEnd);
    } else {
      SectionKeepsInv(s, t, At(Leaving), Advance(s, t, Connecting, closeAtEnd, false, works));
    }
  }

  lemma {:induction false} MarkingKeepsInv(s: State, t: Tid, closeAtEnd: bool)
    requires Inv(s) && t < |s.stacks| && s.stacks[t] != [] && Top(s.stacks[t]).Send? && Top(s.stacks[t]).pc == Marking
    ensures Inv(Advance(s, t, Marking, closeAtEnd, false, false))
  {
    TopFacts(s, t);
    DepthOfPop(s.stacks[t]);
    DepthOfTop(s.stacks[t], Send(Writing, false));
    OthersStayOk(s, t, s.stacks[t][..|s.stacks[t]| - 1] + [Send(Writing, false)],
                 Advance(s, t, Marking, closeAtEnd, false, false));
  }

  lemma {:induction false} ClosingKeepsInv(s: State, t: Tid, closeAtEnd: bool)
    requires Inv(s) && t < |s.stacks| && s.stacks[t] != [] && Top(s.stacks[t]).Send? && Top(s.stacks[t]).pc == Closing
    ensures Inv(Advance(s, t, Closing, closeAtEnd, false, false))
  {
    TopFacts(s, t);
    SectionKeepsInv(s, t, Send(Running, false), Advance(s, t, Closing, closeAtEnd, false, false));
  }

  /** The exit section with the request lock, the count and the sections of the other threads unchanged. */
  lemma {:induction false} ExitingKeepsInv(s: State, t: Tid, closeAtEnd: bool)
    requires Inv(s) && t < |s.stacks| && s.stacks[t] != [] && Top(s.stacks[t]) == Send(Exiting, closeAtEnd)
    ensures Inv(Advance(s, t, Exiting, closeAtEnd, false, false))
  {
    TopFacts(s, t);
    DepthOfPop(s.stacks[t]);
    DepthOfTop(s.stacks[t], Send(Leaving, false));
    if s.inFlight == 1 { LastExitKeepsInv(s, t, closeAtEnd); } else { InnerExitKeepsInv(s, t, closeAtEnd); }
  }

  lemma {:induction false} LastExitKeepsInv(s: State, t: Tid, closeAtEnd: bool)
    requires Inv(s) && t < |s.stacks| && s.stacks[t] != [] && Top(s.stacks[t]) == Send(Exiting, closeAtEnd)
    requires s.inFlight == 1 && s.requestOwner == Some(t) && s.fromThread == Some(t) && s.socketLock == Some(t)
    ensures Inv(Advance(s, t, Exiting, closeAtEnd, false, false))
  {
    DepthOfPop(s.stacks[t]);
    DepthOfTop(s.stacks[t], Send(Leaving, false));
    OthersStayOk(s, t, s.stacks[t][..|s.stacks[t]| - 1] + [Send(Leaving, false)],
                 Advance(s, t, Exiting, closeAtEnd, false, false));
  }

  lemma {:induction false} InnerExitKeepsInv(s: State, t: Tid, closeAtEnd: bool)
    requires Inv(s) && t < |s.stacks| && s.stacks[t] != [] && Top(s.stacks[t]) == Send(Exiting, closeAtEnd)
    requires s.inFlight > 1 && s.requestOwner == Some(t) && s.fromThread == Some(t) && s.socketLock == Some(t)
    ensures Inv(Advance(s, t, Exiting, closeAtEnd, false, false))
  {
    DepthOfPop(s.stacks[t]);
    DepthOfTop(s.stacks[t], Send(Leaving, false));
    OthersStayOk(s, t, s.stacks[t][..|s.stacks[t]| - 1] + [Send(Leaving, false)],
                 Advance(s, t, Exiting, closeAtEnd, false, false));
  }

  lemma {:induction false} LeavingKeepsInv(s: State, t: Tid, closeAtEnd: bool)
    requires Inv(s) && t < |s.stacks| && s.stacks[t] != [] && Top(s.stacks[t]).Send? && Top(s.stacks[t]).pc == Leaving
    ensures Inv(Advance(s, t, Leaving, closeAtEnd, false, false))
  {
    TopFacts(s, t);
    DepthOfPop(s.stacks[t]);
    OthersStayOk(s, t, s.stacks[t][..|s.stacks[t]| - 1], Advance(s, t, Leaving, closeAtEnd, false, false));
  }

  lemma {:induction false} StopKeepsInv(s: State, t: Tid)
    requires Inv(s) && t < |s.stacks| && s.stacks[t] != [] && Top(s.stacks[t]) == Stop(true)
    ensures Inv(StopInside(s, t))
  {
    TopFacts(s, t);
    DepthOfPop(s.stacks[t]);
    OthersStayOk(s, t, s.stacks[t][..|s.stacks[t]| - 1], StopInside(s, t));
  }

  /** Every step of every thread keeps the invariant. */
  lemma {:induction false} StepKeepsInv(s: State, t: Tid, c: Choice)
    requires Inv(s) && Enabled(s, t, c)
    ensures Inv(Do(s, t, c))
  {
    match c
    case CallSend => CallKeepsInv(s, t, Send(WantRequest, false));
    case CallStop => CallKeepsInv(s, t, Stop(false));
    case Respond(ret, closeConnection) => MoveKeepsInv(s, t, Send(WantExit, closeConnection || !ret));
    case AskClose => MoveKeepsInv(s, t, Send(WantClose, false));
    case Go(alive, connects) =>
      match Top(s.stacks[t])
      case Stop(inside) => if inside { StopKeepsInv(s, t); } else { EnterKeepsInv(s, t, Stop(true)); }
      case Send(pc, closeAtEnd) => AdvanceKeepsInv(s, t, c, pc, closeAtEnd);
  }

  lemma {:induction false} AdvanceKeepsInv(s: State, t: Tid, c: Choice, pc: SendPc, closeAtEnd: bool)
    requires Inv(s) && c.Go? && Enabled(s, t, c) && Top(s.stacks[t]) == Send(pc, closeAtEnd)
    ensures Inv(Do(s, t, c))
  {
    match pc
    case WantRequest => LockRequestKeepsInv(s, t);
    case WantSocket => EnterKeepsInv(s, t, Send(Preparing, false));
    case Preparing => PreparingKeepsInv(s, t, closeAtEnd, c.alive);
    case Connecting => ConnectingKeepsInv(s, t, closeAtEnd, c.works);
    case Marking => MarkingKeepsInv(s, t, closeAtEnd);
    case Writing => MoveKeepsInv(s, t, if c.works && !s.shut then Send(Running, false) else Send(WantExit, true));
    case WantClose => EnterKeepsInv(s, t, Send(Closing, false));
    case Closing => ClosingKeepsInv(s, t, closeAtEnd);
    case WantExit => EnterKeepsInv(s, t, Send(Exiting, closeAtEnd));
    case Exiting => ExitingKeepsInv(s, t, closeAtEnd);
    case Leaving => LeavingKeepsInv(s, t, closeAtEnd);
  }

  // ----------------------------------------------------------------- all runs

  /** The order in which threads are given a chance to act, and what the environment decides each time. */
  type Schedule = seq<(Tid, Choice)>

  /** The state after a schedule; a thread that cannot act when its turn comes stays where it is. Every
      interleaving is a schedule. */
  function After(s: State, schedule: Schedule): State
    decreases |schedule|
  {
    if schedule == [] then s
    else
      var (t, c) := schedule[0];
      After(if Enabled(s, t, c) then Do(s, t, c) else s, schedule[1..])
  }

  lemma {:induction false} AfterKeepsInv(s: State, schedule: Schedule)
    requires Inv(s)
    ensures Inv(After(s, schedule))
    decreases |schedule|
  {
    if schedule != [] {
      var (t, c) := schedule[0];
      if Enabled(s, t, c) { StepKeepsInv(s, t, c); }
      AfterKeepsInv(if Enabled(s, t, c) then Do(s, t, c) else s, schedule[1..]);
    }
  }

  /** In every interleaving no assertion fails, the count never underflows, it is the nesting depth of one
      thread's sends, and that thread is the recorded one and holds `request_mutex_`. */
  lemma {:induction false} RunsAreSafe(threads: nat, schedule: Schedule)
    ensures var s := After(Init(threads), schedule);
            && !s.failed && s.inFlight >= 0
            && (s.inFlight > 0 ==> s.fromThread.Some? && s.requestOwner == s.fromThread)
            && (forall t :: 0 <= t < |s.stacks| ==>
                  Nesting(s.stacks[t]) == if s.inFlight > 0 && s.fromThread == Some(t) then s.inFlight else 0)
  {
    InitInv(threads);
    AfterKeepsInv(Init(threads), schedule);
  }

  /** While requests are in flight only their thread replaces or closes the socket. */
  lemma {:induction false} OnlyOwnerClosesSocket(threads: nat, schedule: Schedule, t: Tid, c: Choice)
    requires var s := After(Init(threads), schedule);
             Enabled(s, t, c) && s.inFlight > 0 && Do(s, t, c).socket != s.socket
    ensures After(Init(threads), schedule).fromThread == Some(t)
  {
    InitInv(threads);
    AfterKeepsInv(Init(threads), schedule);
    TopFacts(After(Init(threads), schedule), t);
  }

  /** No socket is leaked or closed twice: every socket ever connected is closed, or it is the open one. */
  lemma {:induction false} SocketsAreClosed(threads: nat, schedule: Schedule)
    ensures var s := After(Init(threads), schedule);
            forall k: SocketId :: k in s.closed <==> k < s.nextSocket && s.socket != Some(k)
  {
    InitInv(threads);
    AfterKeepsInv(Init(threads), schedule);
  }

  /** A thread that is at something can take its next step, or be answered. */
  predicate CanMove(s: State, t: Tid) {
    t < |s.stacks| && s.stacks[t] != [] && (Enabled(s, t, Go(true, true)) || Enabled(s, t, Respond(true, false)))
  }

  /** The two locks never block everybody: while some thread is at something, some thread can move. */
  lemma {:induction false} NoDeadlock(threads: nat, schedule: Schedule, t: Tid) returns (mover: Tid)
    requires var s := After(Init(threads), schedule); t < |s.stacks| && s.stacks[t] != []
    ensures CanMove(After(Init(threads), schedule), mover)
  {
    InitInv(threads);
    AfterKeepsInv(Init(threads), schedule);
    var s := After(Init(threads), schedule);
    if s.socketLock.Some? {
      mover := SectionHolder(s);
    } else if s.requestOwner.Some? && Top(s.stacks[t]).Send? && Top(s.stacks[t]).pc == WantRequest {
      mover := s.requestOwner.value;
    } else {
      mover := t;
    }
  }

  lemma {:induction false} SectionHolder(s: State) returns (t: Tid)
    requires Inv(s) && s.socketLock.Some?
    ensures CanMove(s, t)
  {
    t := s.socketLock.value;
  }

  // ---------------------------------------------------------- what a stop does

  /** The critical section of a `stop` of thread `t` that finds requests in flight. */
  predicate StopsInFlight(s: State, t: Tid) {
    t < |s.stacks| && s.stacks[t] != [] && Top(s.stacks[t]) == Stop(true) && s.inFlight > 0
  }

  /** The step in which a `send`, in its first critical section, connects a new socket. */
  predicate Connects(s: State, t: Tid, c: Choice) {
    && Enabled(s, t, c) && c.Go? && c.works
    && Top(s.stacks[t]).Send? && Top(s.stacks[t]).pc == Connecting
  }

  /** Of the sockets before number `m` none is open, except one that is shut down. */
  predicate OlderAreOut(s: State, m: SocketId) {
    m <= s.nextSocket && (s.socket.Some? && s.socket.value < m ==> s.shut)
  }

  lemma {:induction false} AdvanceKeepsOlderOut(s: State, t: Tid, pc: SendPc, closeAtEnd: bool, alive: bool,
                                                works: bool, m: SocketId)
    requires OlderAreOut(s, m) && t < |s.stacks| && s.stacks[t] != []
    ensures OlderAreOut(Advance(s, t, pc, closeAtEnd, alive, works), m)
    ensures Advance(s, t, pc, closeAtEnd, alive, works).nextSocket
            == s.nextSocket + if pc == Connecting && works then 1 else 0
  {}

  lemma {:induction false} StepKeepsOlderOut(s: State, t: Tid, c: Choice, m: SocketId)
    requires OlderAreOut(s, m) && Enabled(s, t, c)
    ensures OlderAreOut(Do(s, t, c), m)
    ensures Do(s, t, c).nextSocket == s.nextSocket + if Connects(s, t, c) then 1 else 0
  {
    if c.Go? && Top(s.stacks[t]).Send? {
      var f := Top(s.stacks[t]);
      AdvanceKeepsOlderOut(s, t, f.pc, f.closeAtEnd, c.alive, c.works, m);
    }
  }

  lemma {:induction false} AfterKeepsOlderOut(s: State, schedule: Schedule, m: SocketId)
    requires OlderAreOut(s, m)
    ensures OlderAreOut(After(s, schedule), m) && s.nextSocket <= After(s, schedule).nextSocket
    decreases |schedule|
  {
    if schedule != [] {
      var (t, c) := schedule[0];
      if Enabled(s, t, c) { StepKeepsOlderOut(s, t, c, m); }
      AfterKeepsOlderOut(if Enabled(s, t, c) then Do(s, t, c) else s, schedule[1..], m);
    }
  }

  /** What the rest of a run makes of a `stop` in flight: at that moment no `send` is in its first critical
      section, and once no request is in flight, every socket there was is closed. */
  lemma {:induction false} StopIsHonoured(threads: nat, before: Schedule, t: Tid, after: Schedule)
    requires StopsInFlight(After(Init(threads), before), t)
    ensures var s0 := StopInside(After(Init(threads), before), t);
            && (forall u :: 0 <= u < |s0.stacks| && s0.stacks[u] != [] ==> !InSection(Top(s0.stacks[u])))
            && var s := After(s0, after);
               s.inFlight == 0 ==> (forall k: SocketId :: k < s0.nextSocket ==> k in s.closed)
  {
    InitInv(threads);
    AfterKeepsInv(Init(threads), before);
    StopLeavesOlder(After(Init(threads), before), t, after);
  }

  lemma {:induction false} StopLeavesOlder(s: State, t: Tid, after: Schedule)
    requires Inv(s) && StopsInFlight(s, t)
    ensures Inv(StopInside(s, t)) && Inv(After(StopInside(s, t), after))
    ensures StopInside(s, t).socketLock == None
    ensures OlderAreOut(After(StopInside(s, t), after), StopInside(s, t).nextSocket)
  {
    StopKeepsInv(s, t);
    AfterKeepsInv(StopInside(s, t), after);
    AfterKeepsOlderOut(StopInside(s, t), after, StopInside(s, t).nextSocket);
  }

  lemma {:induction false} AfterConcat(s: State, a: Schedule, b: Schedule)
    ensures After(s, a + b) == After(After(s, a), b)
    decreases |a|
  {
    if a == [] {
      assert a + b == b;
    } else {
      assert (a + b)[0] == a[0] && (a + b)[1..] == a[1..] + b;
      var (t, c) := a[0];
      AfterConcat(if Enabled(s, t, c) then Do(s, t, c) else s, a[1..], b);
    }
  }

  lemma {:induction false} AfterSnoc(s: State, schedule: Schedule, n: nat, u: State)
    requires n < |schedule| && u == After(s, schedule[..n])
    ensures After(s, schedule[..n + 1])
            == if Enabled(u, schedule[n].0, schedule[n].1) then Do(u, schedule[n].0, schedule[n].1) else u
  {
    assert schedule[..n + 1] == schedule[..n] + [schedule[n]];
    AfterConcat(s, schedule[..n], [schedule[n]]);
  }

  // --------------------------------------------------- a stop that is forgotten

  lemma {:induction false} AfterOne(s: State, t: Tid, c: Choice)
    requires Enabled(s, t, c)
    ensures After(s, [(t, c)]) == Do(s, t, c)
  {}

  /** Extend a schedule by one step. */
  lemma {:induction false} Extend(s: State, schedule: Schedule, u: State, t: Tid, c: Choice)
    requires After(s, schedule) == u && Enabled(u, t, c)
    ensures After(s, schedule + [(t, c)]) == Do(u, t, c)
  {
    AfterConcat(s, schedule, [(t, c)]);
    AfterOne(u, t, c);
  }

  /** Where the sockets of the run below stand. */
  datatype Phase = Unconnected | First | FirstShut | Between | Second

  /** A state of two threads in which thread 0 owns the requests. */
  function Snap(a: seq<Frame>, b: seq<Frame>, depth: nat, lock: Option<Tid>, n: nat, close: bool, p: Phase): State {
    State([a, b], if depth == 0 then None else Some(0), depth, lock, n, if n > 0 then Some(0) else None, close,
          if p == First || p == FirstShut then Some(0) else if p == Second then Some(1) else None,
          if p == Unconnected then 0 else if p == Second then 2 else 1,
          p == FirstShut, if p == Between || p == Second then {0} else {}, false)
  }

  /** Replacing, popping and pushing the top of one of two stacks. */
  lemma {:induction false} FirstStack(below: seq<Frame>, f: Frame, g: Frame, b: seq<Frame>)
    ensures (below + [f])[..|below + [f]| - 1] == below
    ensures [below + [f], b][0 := below + [g]] == [below + [g], b]
    ensures [below + [f], b][0 := below] == [below, b]
    ensures [below, b][0 := below + [f]] == [below + [f], b]
  {}

  lemma {:induction false} SecondStack(below: seq<Frame>, f: Frame, g: Frame, b: seq<Frame>)
    ensures (below + [f])[..|below + [f]| - 1] == below
    ensures [b, below + [f]][1 := below + [g]] == [b, below + [g]]
    ensures [b, below + [f]][1 := below] == [b, below]
    ensures [b, below][1 := below + [f]] == [b, below + [f]]
  {}

  /** The next statement; a liveness probe finds the socket dead, a connect or write works. */
  const GO := Go(false, true)

  function Dropped(p: Phase): Phase { if p == FirstShut then Between else p }

  function Connected(p: Phase): Phase { if p == Unconnected then First else Second }

  /** A request of thread 0 inside the activations `below`, up to its first write. */
  function Starting(below: seq<Frame>, close: bool, p: Phase, pc: SendPc): State {
    var section := pc == Preparing || pc == Connecting || pc == Marking;
    Snap(below + [At(pc)], [], |below| + if pc == WantRequest then 0 else 1, if section then Some(0) else None,
         |below| + if pc == Writing || pc == Running then 1 else 0, close, p)
  }

  lemma {:induction false} StartingSteps(below: seq<Frame>, close: bool, p: Phase)
    requires |below| <= 1 && (p == Unconnected || p == FirstShut)
    ensures Enabled(Starting(below, close, p, WantRequest), 0, GO)
    ensures Do(Starting(below, close, p, WantRequest), 0, GO) == Starting(below, close, p, WantSocket)
    ensures Enabled(Starting(below, close, p, WantSocket), 0, GO)
    ensures Do(Starting(below, close, p, WantSocket), 0, GO) == Starting(below, close, p, Preparing)
    ensures Enabled(Starting(below, close, p, Preparing), 0, GO)
    ensures Do(Starting(below, close, p, Preparing), 0, GO) == Starting(below, false, Dropped(p), Connecting)
  {
    FirstStack(below, At(WantRequest), At(WantSocket), []);
    FirstStack(below, At(WantSocket), At(Preparing), []);
    FirstStack(below, At(Preparing), At(Connecting), []);
  }

  lemma {:induction false} ConnectingSteps(below: seq<Frame>, p: Phase)
    requires |below| <= 1 && (p == Unconnected || p == FirstShut)
    ensures Enabled(Starting(below, false, Dropped(p), Connecting), 0, GO)
    ensures Do(Starting(below, false, Dropped(p), Connecting), 0, GO) == Starting(below, false, Connected(p), Marking)
    ensures Enabled(Starting(below, false, Connected(p), Marking), 0, GO)
    ensures Do(Starting(below, false, Connected(p), Marking), 0, GO) == Starting(below, false, Connected(p), Writing)
    ensures Enabled(Starting(below, false, Connected(p), Writing), 0, GO)
    ensures Do(Starting(below, false, Connected(p), Writing), 0, GO) == Starting(below, false, Connected(p), Running)
  {
    FirstStack(below, At(Connecting), At(Marking), []);
    FirstStack(below, At(Marking), At(Writing), []);
    FirstStack(below, At(Writing), At(Running), []);
  }

  /** A send by thread 0 connects and writes its request. */
  lemma {:induction false} RequestStarts(s: State, schedule: Schedule, below: seq<Frame>, close: bool, p: Phase)
    returns (r: Schedule)
    requires (below == [] || below == [At(Running)]) && (p == Unconnected || p == FirstShut)
    requires After(s, schedule) == Snap(below, [], |below|, None, |below|, close, p)
    ensures After(s, r) == Starting(below, false, Connected(p), Running)
  {
    FirstStack(below, At(WantRequest), At(WantRequest), []);
    Extend(s, schedule, Snap(below, [], |below|, None, |below|, close, p), 0, CallSend);
    r := schedule + [(0, CallSend)];
    StartingSteps(below, close, p);
    Extend(s, r, Starting(below, close, p, WantRequest), 0, GO);
    r := r + [(0, GO)];
    Extend(s, r, Starting(below, close, p, WantSocket), 0, GO);
    r := r + [(0, GO)];
    Extend(s, r, Starting(below, close, p, Preparing), 0, GO);
    r := r + [(0, GO)];
    ConnectingSteps(below, p);
    Extend(s, r, Starting(below, false, Dropped(p), Connecting), 0, GO);
    r := r + [(0, GO)];
    Extend(s, r, Starting(below, false, Connected(p), Marking), 0, GO);
    r := r + [(0, GO)];
    Extend(s, r, Starting(below, false, Connected(p), Writing), 0, GO);
    r := r + [(0, GO)];
  }

  /** A `stop` by thread 1 while thread 0 is in a request. */
  function Stopping(stop: seq<Frame>, lock: Option<Tid>): State {
    Snap([At(Running)], stop, 1, lock, 1, false, First)
  }

  lemma {:induction false} StopStarts()
    ensures Enabled(Stopping([], None), 1, CallStop)
    ensures Do(Stopping([], None), 1, CallStop) == Stopping([Stop(false)], None)
  {
    SecondStack([], Stop(false), Stop(false), [At(Running)]);
    assert [] + [Stop(false)] == [Stop(false)];
  }

  lemma {:induction false} StopEnters()
    ensures Enabled(Stopping([Stop(false)], None), 1, GO)
    ensures Do(Stopping([Stop(false)], None), 1, GO) == Stopping([Stop(true)], Some(1))
  {
    SecondStack([], Stop(false), Stop(true), [At(Running)]);
    assert [] + [Stop(false)] == [Stop(false)] && [] + [Stop(true)] == [Stop(true)];
  }

  lemma {:induction false} StopActs()
    ensures StopsInFlight(Stopping([Stop(true)], Some(1)), 1)
    ensures StopInside(Stopping([Stop(true)], Some(1)), 1) == Snap([At(Running)], [], 1, None, 1, true, FirstShut)
  {
    SecondStack([], Stop(true), Stop(true), [At(Running)]);
    assert [] + [Stop(true)] == [Stop(true)];
  }

  lemma {:induction false} StopArrives(schedule: Schedule) returns (r: Schedule)
    requires After(Init(2), schedule) == Stopping([], None)
    ensures StopsInFlight(After(Init(2), r), 1)
    ensures StopInside(After(Init(2), r), 1) == Snap([At(Running)], [], 1, None, 1, true, FirstShut)
  {
    StopStarts();
    Extend(Init(2), schedule, Stopping([], None), 1, CallStop);
    r := schedule + [(1, CallStop)];
    StopEnters();
    Extend(Init(2), r, Stopping([Stop(false)], None), 1, GO);
    r := r + [(1, GO)];
    StopActs();
  }

  /** The states of an innermost request that ends well and keeps the connection. */
  function Ending(below: seq<Frame>, pc: SendPc): State {
    Snap(below + [At(pc)], [], |below| + 1, if pc == Exiting then Some(0) else None,
         if pc == Leaving then |below| else |below| + 1, false, Second)
  }

  lemma {:induction false} EndingSteps(below: seq<Frame>)
    requires |below| <= 1
    ensures Enabled(Ending(below, Running), 0, Respond(true, false)) && Enabled(Ending(below, WantExit), 0, GO)
    ensures Enabled(Ending(below, Exiting), 0, GO) && Enabled(Ending(below, Leaving), 0, GO)
    ensures Do(Ending(below, Running), 0, Respond(true, false)) == Ending(below, WantExit)
    ensures Do(Ending(below, WantExit), 0, GO) == Ending(below, Exiting)
    ensures Do(Ending(below, Exiting), 0, GO) == Ending(below, Leaving)
    ensures Do(Ending(below, Leaving), 0, GO) == Snap(below, [], |below|, None, |below|, false, Second)
  {
    FirstStack(below, At(Running), At(WantExit), []);
    FirstStack(below, At(WantExit), At(Exiting), []);
    FirstStack(below, At(Exiting), At(Leaving), []);
    FirstStack(below, At(Leaving), At(Leaving), []);
  }

  lemma {:induction false} RequestEnds(s: State, schedule: Schedule, below: seq<Frame>) returns (r: Schedule)
    requires |below| <= 1 && After(s, schedule) == Ending(below, Running)
    ensures After(s, r) == Snap(below, [], |below|, None, |below|, false, Second)
  {
    EndingSteps(below);
    Extend(s, schedule, Ending(below, Running), 0, Respond(true, false));
    r := schedule + [(0, Respond(true, false))];
    Extend(s, r, Ending(below, WantExit), 0, GO);
    r := r + [(0, GO)];
    Extend(s, r, Ending(below, Exiting), 0, GO);
    r := r + [(0, GO)];
    Extend(s, r, Ending(below, Leaving), 0, GO);
    r := r + [(0, GO)];
  }

  /** Nobody is doing anything, nothing is scheduled for closing, and a socket is open. */
  predicate IdleButOpen(s: State) {
    s.socket.Some? && !s.shouldClose && s.inFlight == 0 && forall t :: 0 <= t < |s.stacks| ==> s.stacks[t] == []
  }

  /** That the client ends with no open socket behind a `stop` in flight is false: a redirect that starts behind
      the `stop` resets its flag, finds the socket dead and connects another, which stays open when everything
      is over. */
  lemma {:induction false} StopCanBeForgotten() returns (before: Schedule, after: Schedule)
    ensures StopsInFlight(After(Init(2), before), 1)
    ensures IdleButOpen(After(StopInside(After(Init(2), before), 1), after))
  {
    assert Init(2) == Snap([], [], 0, None, 0, false, Unconnected);
    before := RequestStarts(Init(2), [], [], false, Unconnected);
    assert [] + [At(Running)] == [At(Running)];
    before := StopArrives(before);
    var s := StopInside(After(Init(2), before), 1);
    after := RequestStarts(s, [], [At(Running)], true, FirstShut);
    after := RequestEnds(s, after, [At(Running)]);
    assert [At(Running)] == [] + [At(Running)];
    after := RequestEnds(s, after, []);
  }
}
