/** The push server runs the same protocol, and its worker is in turn the controlling thread of the TCP server
    and of the XMPP client. Beside the states there is what the threads take for granted: that the Redis client is
    initialised once, and that the XMPP client has its context when it is used. */
module NestedLifecycle {
  import opened Lifecycle

  /** The code as written hands the XMPP client's context to xmpp_stop without a look; guarded code would leave a
      missing one alone. */
  datatype Code = Code(protocol: Variant, guarded: bool)

  const WRITTEN := Code(AS_WRITTEN, false)
  const GUARDED := Code(AS_WRITTEN, true)

  /** The three objects; the connection of the Redis client and the context of the XMPP client, its ctx and conn;
      two places of the outer worker, having initialised the Redis client and having yet to call xmpp_stop; and
      whether a failed assertion or a missing context ended the process. */
  datatype System = System(outer: Object, tcp: Object, xmpp: Object,
                           redis: bool, context: bool, begun: bool, owing: bool, aborted: bool)

  /** One step of one of the four threads, the owner making the given call when it is between calls; or a request
      that deletes or sets up a node. */
  datatype SystemMove = OwnerMove(call: Call) | OuterWork | TcpWork | XmppWork | Request

  const IDLE_SYSTEM := System(FRESH, FRESH, FRESH, false, false, false, false, false)

  predicate Up(o: Object) {
    o.control == Idle && o.started
  }

  predicate Down(o: Object) {
    o.control == Idle && !o.started
  }

  /** Between the start and the stop of the TCP server's own server. */
  predicate Accepting(s: System) {
    s.tcp.worker == Loop || s.tcp.worker == Cleanup
  }

  // ---------- What ends the process ----------

  /** The outer worker is about to initialise a Redis client that is initialised. */
  predicate InitFails(s: System) {
    s.outer.worker == Setup && !s.begun && s.redis
  }

  /** The outer worker is about to hand over a context that is not there. */
  predicate ContextFails(c: Code, s: System) {
    s.outer.worker == Cleanup && Down(s.tcp) && s.owing && !s.context && !c.guarded
  }

  /** The XMPP worker is about to release a context that is not there. */
  predicate ReleaseFails(s: System) {
    s.xmpp.worker == Cleanup && !s.context
  }

  /** A request would find no connection. */
  predicate RequestFails(s: System) {
    Accepting(s) && !s.context
  }

  predicate Fails(c: Code, s: System, move: SystemMove) {
    match move
    case OwnerMove(_) => false
    case OuterWork => InitFails(s) || ContextFails(c, s)
    case TcpWork => false
    case XmppWork => ReleaseFails(s)
    case Request => RequestFails(s)
  }

  // ---------- Steps ----------

  /** The outer worker initialises the Redis client and starts both objects before its loop, and stops both after
      it, one read or write at a time; everything else it does as any worker. */
  function OuterStep(c: Code, s: System): System {
    match s.outer.worker
    case Setup =>
      if !s.begun then s.(redis := true, begun := true)
      else if !Up(s.tcp) then s.(tcp := ControlStep(c.protocol, s.tcp, Start))
      else if !Up(s.xmpp) then s.(xmpp := ControlStep(c.protocol, s.xmpp, Start))
      else s.(outer := WorkStep(c.protocol, s.outer), begun := false)
    case Cleanup =>
      if !Down(s.tcp) then s.(tcp := ControlStep(c.protocol, s.tcp, Stop))
      else if s.owing then s.(owing := false)
      else if !Down(s.xmpp) then
        s.(xmpp := ControlStep(c.protocol, s.xmpp, Stop), owing := s.xmpp.control == StopWrite)
      else s.(outer := WorkStep(c.protocol, s.outer))
    case _ => s.(outer := WorkStep(c.protocol, s.outer))
  }

  /** The XMPP worker makes its context before its loop and releases it after. */
  function XmppStep(c: Code, s: System): System {
    s.(xmpp := WorkStep(c.protocol, s.xmpp),
       context := s.xmpp.worker == Setup || (s.context && s.xmpp.worker != Cleanup))
  }

  function SystemStep(c: Code, s: System, move: SystemMove): System {
    if s.aborted then s
    else if Fails(c, s, move) then s.(aborted := true)
    else
      match move
      case OwnerMove(call) => s.(outer := ControlStep(c.protocol, s.outer, call))
      case OuterWork => OuterStep(c, s)
      case TcpWork => s.(tcp := WorkStep(c.protocol, s.tcp))
      case XmppWork => XmppStep(c, s)
      case Request => s
  }

  function SystemRun(c: Code, s: System, moves: seq<SystemMove>): System
    decreases |moves|
  {
    if moves == [] then s
    else SystemStep(c, SystemRun(c, s, moves[..|moves| - 1]), moves[|moves| - 1])
  }

  // ---------- The invariant ----------

  predicate GoingUp(o: Object) {
    o.control in {Idle, StartAssert, StartWrite, StartThread}
  }

  predicate GoingDown(o: Object) {
    o.control == Idle || (o.started && InStop(o))
  }

  /** What the inner objects are doing follows where the outer worker is. */
  predicate Coupled(s: System) {
    match s.outer.worker
    case Setup =>
      if !s.begun then Down(s.tcp) && Down(s.xmpp)
      else GoingUp(s.tcp) && if Up(s.tcp) then GoingUp(s.xmpp) else Down(s.xmpp)
    case Loop => Up(s.tcp) && Up(s.xmpp)
    case Cleanup => GoingDown(s.tcp) && if Down(s.tcp) then GoingDown(s.xmpp) else Up(s.xmpp)
    case _ => Down(s.tcp) && Down(s.xmpp)
  }

  /** The context is there while the XMPP worker is between its set-up and its clean-up; the places of the outer
      worker belong to its phases; and behind its set-up the Redis client is initialised. */
  predicate Provided(s: System) {
    && (s.context <==> s.xmpp.worker == Loop || s.xmpp.worker == Cleanup)
    && (s.begun ==> s.outer.worker == Setup && s.redis)
    && (s.owing ==> s.outer.worker == Cleanup && s.xmpp.control == Join && Down(s.tcp))
    && (s.outer.worker in {Loop, Cleanup, WriteWaiting} ==> s.redis)
  }

  predicate SystemInv(c: Code, s: System) {
    && Inv(c.protocol, s.outer) && Inv(c.protocol, s.tcp) && Inv(c.protocol, s.xmpp)
    && Coupled(s) && Provided(s)
  }

  lemma WorkKeepsControl(v: Variant, o: Object)
    ensures var r := WorkStep(v, o);
            && r.control == o.control && r.started == o.started && r.thread == o.thread
            && (r.worker == Setup ==> o.worker == TestStarting || o.worker == WriteRunning)
            && (o.worker == Setup ==> r.worker == Loop)
            && (r.worker == Loop ==> o.worker == Setup || o.worker == Loop)
            && (o.worker == Loop ==> r.worker == Loop || r.worker == Cleanup)
            && (r.worker == Cleanup ==> o.worker == Loop)
            && (r.worker == WriteWaiting <==> o.worker == Cleanup)
  {
  }

  /** Steps of start() and stop() keep going the same way. */
  lemma ControlKeepsCourse(v: Variant, o: Object)
    requires v.startingFirst && Inv(v, o)
    ensures GoingUp(o) && !Up(o) ==> GoingUp(ControlStep(v, o, Start)) && !Down(ControlStep(v, o, Start))
    ensures GoingDown(o) && !Down(o) ==> GoingDown(ControlStep(v, o, Stop)) && !Up(ControlStep(v, o, Stop))
    ensures o.control == StopWrite ==> ControlStep(v, o, Stop).control == Join
  {
  }

  /** The owner of an object creates and joins its worker, and does not move it otherwise. */
  lemma OwnerKeepsWorker(v: Variant, o: Object, call: Call)
    requires v.startingFirst && Inv(v, o)
    ensures var r := ControlStep(v, o, call).worker;
            r == o.worker || (r == AssertStarting && o.worker == NoThread) || (r == NoThread && o.worker == Finished)
  {
  }

  lemma OwnerStepKeepsInv(c: Code, s: System, call: Call)
    requires c.protocol.startingFirst && SystemInv(c, s)
    ensures SystemInv(c, SystemStep(c, s, OwnerMove(call)))
  {
    hide Inv, WorkStep, ControlStep;
    StepKeepsInv(c.protocol, s.outer, Control(call));
    OwnerKeepsWorker(c.protocol, s.outer, call);
  }

  lemma SetupStepKeepsInv(c: Code, s: System)
    requires c.protocol.startingFirst && SystemInv(c, s) && s.outer.worker == Setup
    ensures SystemInv(c, SystemStep(c, s, OuterWork))
  {
    hide Inv, WorkStep, ControlStep;
    var v := c.protocol;
    StepKeepsInv(v, s.outer, Work);
    StepKeepsInv(v, s.tcp, Control(Start));
    StepKeepsInv(v, s.xmpp, Control(Start));
    WorkKeepsControl(v, s.outer);
    ControlKeepsCourse(v, s.tcp);
    ControlKeepsCourse(v, s.xmpp);
    OwnerKeepsWorker(v, s.xmpp, Start);
  }

  lemma CleanupStepKeepsInv(c: Code, s: System)
    requires c.protocol.startingFirst && SystemInv(c, s) && s.outer.worker == Cleanup
    ensures SystemInv(c, SystemStep(c, s, OuterWork))
  {
    hide Inv, WorkStep, ControlStep;
    var v := c.protocol;
    StepKeepsInv(v, s.outer, Work);
    StepKeepsInv(v, s.tcp, Control(Stop));
    StepKeepsInv(v, s.xmpp, Control(Stop));
    WorkKeepsControl(v, s.outer);
    ControlKeepsCourse(v, s.tcp);
    ControlKeepsCourse(v, s.xmpp);
    OwnerKeepsWorker(v, s.xmpp, Stop);
  }

  lemma OuterStepKeepsInv(c: Code, s: System)
    requires c.protocol.startingFirst && SystemInv(c, s)
    ensures SystemInv(c, SystemStep(c, s, OuterWork))
  {
    hide Inv, WorkStep, ControlStep;
    if s.outer.worker == Setup {
      SetupStepKeepsInv(c, s);
    } else if s.outer.worker == Cleanup {
      CleanupStepKeepsInv(c, s);
    } else {
      StepKeepsInv(c.protocol, s.outer, Work);
      WorkKeepsControl(c.protocol, s.outer);
    }
  }

  lemma InnerStepKeepsInv(c: Code, s: System, move: SystemMove)
    requires c.protocol.startingFirst && SystemInv(c, s) && move in {TcpWork, XmppWork, Request}
    ensures SystemInv(c, SystemStep(c, s, move))
  {
    hide Inv, WorkStep, ControlStep;
    StepKeepsInv(c.protocol, s.tcp, Work);
    WorkKeepsControl(c.protocol, s.tcp);
    StepKeepsInv(c.protocol, s.xmpp, Work);
    WorkKeepsControl(c.protocol, s.xmpp);
  }

  lemma SystemStepKeepsInv(c: Code, s: System, move: SystemMove)
    requires c.protocol.startingFirst && SystemInv(c, s)
    ensures SystemInv(c, SystemStep(c, s, move))
  {
    hide SystemInv, SystemStep;
    match move
    case OwnerMove(call) => OwnerStepKeepsInv(c, s, call);
    case OuterWork => OuterStepKeepsInv(c, s);
    case _ => InnerStepKeepsInv(c, s, move);
  }

  lemma {:induction false} SystemRunKeepsInv(c: Code, s: System, moves: seq<SystemMove>)
    requires c.protocol.startingFirst && SystemInv(c, s)
    ensures SystemInv(c, SystemRun(c, s, moves))
    decreases |moves|
  {
    hide SystemInv, SystemStep;
    if moves != [] {
      SystemRunKeepsInv(c, s, moves[..|moves| - 1]);
      SystemStepKeepsInv(c, SystemRun(c, s, moves[..|moves| - 1]), moves[|moves| - 1]);
    }
  }

  lemma RunFromIdle(c: Code, moves: seq<SystemMove>)
    requires c.protocol.startingFirst
    ensures SystemInv(c, SystemRun(c, IDLE_SYSTEM, moves))
  {
    SystemRunKeepsInv(c, IDLE_SYSTEM, moves);
  }

  // ---------- Which assertions can fail ----------

  /** In every reachable state of every interleaving of the four threads and the requests: no assertion about a
      state fails, nor does one of the clean-up of the XMPP client; and once the outer worker has finished, by the
      early return too, the TCP server and the XMPP client are NOT_RUNNING without a thread; after stop all three
      are. */
  lemma SystemSafe(c: Code, moves: seq<SystemMove>)
    requires c.protocol.startingFirst
    ensures var s := SystemRun(c, IDLE_SYSTEM, moves);
            && (forall o | o in {s.outer, s.tcp, s.xmpp} :: o.control != ControlFailed && o.worker != WorkerFailed)
            && !ReleaseFails(s) && (s.xmpp.worker == Cleanup ==> s.context)
            && (s.outer.worker in {Finished, NoThread} ==> Stopped(s.tcp) && Stopped(s.xmpp))
            && (Down(s.outer) ==> Stopped(s.outer) && Stopped(s.tcp) && Stopped(s.xmpp))
  {
    hide Inv, SystemRun;
    RunFromIdle(c, moves);
    var s := SystemRun(c, IDLE_SYSTEM, moves);
    NeverFails(c.protocol, s.outer);
    NeverFails(c.protocol, s.tcp);
    NeverFails(c.protocol, s.xmpp);
  }

  lemma NeverFails(v: Variant, o: Object)
    requires Inv(v, o)
    ensures o.control != ControlFailed && o.worker != WorkerFailed
    ensures Down(o) ==> Stopped(o)
    ensures o.worker == NoThread ==> !(o.control == Idle && o.started)
  {
  }

  /** The process ends exactly when the Redis client is initialised again, a stop of the XMPP client meets no
      context, or a request meets no connection. */
  lemma {:induction false} ThreeEnds(c: Code, moves: seq<SystemMove>)
    requires c.protocol.startingFirst
    ensures SystemRun(c, IDLE_SYSTEM, moves).aborted <==> exists k | 0 <= k < |moves| :: EndsAt(c, moves, k)
    decreases |moves|
  {
    hide SystemInv, OuterStep, XmppStep, InitFails, ContextFails, RequestFails;
    if moves != [] {
      var n := |moves| - 1;
      ThreeEnds(c, moves[..n]);
      var s := SystemRun(c, IDLE_SYSTEM, moves[..n]);
      RunFromIdle(c, moves[..n]);
      NeverReleased(c, s);
      forall k | 0 <= k < n ensures EndsAt(c, moves, k) <==> EndsAt(c, moves[..n], k) {
        assert moves[..n][..k] == moves[..k];
      }
      StepEnds(c, s, moves[n]);
      assert EndsAt(c, moves, n) <==> !moves[n].XmppWork? && Fails(c, s, moves[n]);
    }
  }

  lemma StepEnds(c: Code, s: System, move: SystemMove)
    ensures SystemStep(c, s, move).aborted <==> s.aborted || Fails(c, s, move)
  {
  }

  lemma NeverReleased(c: Code, s: System)
    requires SystemInv(c, s)
    ensures !ReleaseFails(s)
  {
  }

  /** A request meets no connection only while the XMPP client has not got past its set-up, never after its
      clean-up: the TCP server is stopped first. */
  lemma RequestsComeEarly(c: Code, s: System)
    requires SystemInv(c, s)
    ensures RequestFails(s) <==> Accepting(s) && s.xmpp.worker !in {Loop, Cleanup}
    ensures Accepting(s) ==> s.xmpp.worker !in {AssertStop, Cleanup, WriteWaiting, Finished}
  {
  }

  predicate EndsAt(c: Code, moves: seq<SystemMove>, k: nat)
    requires k < |moves|
  {
    var s := SystemRun(c, IDLE_SYSTEM, moves[..k]);
    || (moves[k] == OuterWork && (InitFails(s) || ContextFails(c, s)))
    || (moves[k] == Request && RequestFails(s))
  }

  /** The push server starts and stops things in order. The TCP server runs only with an initialised Redis client; the
      XMPP client is started after it and not stopped before it is down. */
  lemma ServesInOrder(c: Code, moves: seq<SystemMove>)
    requires c.protocol.startingFirst
    ensures var s := SystemRun(c, IDLE_SYSTEM, moves);
            && (!Down(s.tcp) ==> s.redis)
            && (s.outer.worker == Setup && !Down(s.xmpp) ==> Up(s.tcp))
            && (InStop(s.xmpp) ==> Down(s.tcp))
            && (s.outer.worker == Loop ==> Up(s.tcp) && Up(s.xmpp))
            && (s.outer.worker !in {Setup, Loop, Cleanup} ==> Down(s.tcp) && Down(s.xmpp))
  {
    RunFromIdle(c, moves);
  }

  // ---------- Starting again ----------

  /** The outer worker is about to find STARTING and go on. */
  predicate Passes(s: System) {
    !s.aborted && s.outer.worker == TestStarting && s.outer.state == Starting
  }

  /** How often a worker of the push server got past its early return. */
  function Passed(c: Code, moves: seq<SystemMove>): nat
    decreases |moves|
  {
    if moves == [] then 0
    else
      var before := moves[..|moves| - 1];
      Passed(c, before) + if moves[|moves| - 1] == OuterWork && Passes(SystemRun(c, IDLE_SYSTEM, before)) then 1 else 0
  }

  predicate BeforeInit(s: System) {
    s.outer.worker == WriteRunning || (s.outer.worker == Setup && !s.begun)
  }

  predicate Counted(s: System, n: nat) {
    && (s.redis <==> n == 2 || (n == 1 && !BeforeInit(s)))
    && (n == 0 ==> s.outer.worker !in {WriteRunning, Setup, Loop, Cleanup, WriteWaiting})
    && n <= 2
    && (n == 2 ==> BeforeInit(s))
  }

  lemma StepCounts(c: Code, s: System, n: nat, move: SystemMove)
    requires c.protocol.startingFirst && SystemInv(c, s) && Counted(s, n)
    ensures Counted(SystemStep(c, s, move), n + if move == OuterWork && Passes(s) then 1 else 0)
  {
    hide Coupled;
    match move
    case OwnerMove(call) => OwnerKeepsWorker(c.protocol, s.outer, call);
    case _ =>
  }

  /** In every run: the Redis client is initialised exactly when a worker got past its early return and is not just
      about to initialise it; the second worker that gets past it is the last; and the assertion of init fails
      exactly for that one. */
  lemma {:induction false} SecondInitFails(c: Code, moves: seq<SystemMove>)
    requires c.protocol.startingFirst
    ensures var s, n := SystemRun(c, IDLE_SYSTEM, moves), Passed(c, moves);
            && (s.redis <==> n == 2 || (n == 1 && !BeforeInit(s)))
            && (n == 0 ==> s.outer.worker !in {WriteRunning, Setup, Loop, Cleanup, WriteWaiting})
            && n <= 2
            && (n == 2 ==> BeforeInit(s))
            && (InitFails(s) <==> n == 2 && s.outer.worker == Setup)
    decreases |moves|
  {
    hide SystemInv, SystemStep;
    if moves != [] {
      var before := moves[..|moves| - 1];
      SecondInitFails(c, before);
      RunFromIdle(c, before);
      StepCounts(c, SystemRun(c, IDLE_SYSTEM, before), Passed(c, before), moves[|moves| - 1]);
    }
  }

  /** Initialised, and no worker got past init since: no loop, and no start of the TCP server or XMPP client. */
  predicate Spent(s: System) {
    s.redis && !s.begun && s.outer.worker !in {Loop, Cleanup, WriteWaiting}
  }

  lemma {:induction false} StaysSpent(c: Code, s: System, moves: seq<SystemMove>)
    requires c.protocol.startingFirst && SystemInv(c, s) && Spent(s)
    ensures Spent(SystemRun(c, s, moves))
    decreases |moves|
  {
    hide SystemInv, Spent, SystemStep;
    if moves != [] {
      StaysSpent(c, s, moves[..|moves| - 1]);
      SystemRunKeepsInv(c, s, moves[..|moves| - 1]);
      StepStaysSpent(c, SystemRun(c, s, moves[..|moves| - 1]), moves[|moves| - 1]);
    }
  }

  lemma StepStaysSpent(c: Code, s: System, move: SystemMove)
    requires c.protocol.startingFirst && SystemInv(c, s) && Spent(s)
    ensures Spent(SystemStep(c, s, move))
  {
    hide Coupled, ControlStep;
    match move
    case OwnerMove(call) => OwnerKeepsWorker(c.protocol, s.outer, call);
    case _ =>
  }

  /** A push server that is down has initialised its Redis client if and only if one of its workers got past the
      early return. Started again it never serves: in every run that follows, the worker does not come to its
      loop, and the TCP server and the XMPP client stay down. */
  lemma NeverServesAgain(c: Code, moves: seq<SystemMove>, later: seq<SystemMove>)
    requires c.protocol.startingFirst
    requires Down(SystemRun(c, IDLE_SYSTEM, moves).outer)
    ensures var s := SystemRun(c, IDLE_SYSTEM, moves);
            && (s.redis <==> Passed(c, moves) > 0)
            && (s.redis ==> var r := SystemRun(c, s, later);
                            r.outer.worker !in {Loop, Cleanup, WriteWaiting} && Down(r.tcp) && Down(r.xmpp))
  {
    var s := SystemRun(c, IDLE_SYSTEM, moves);
    RunFromIdle(c, moves);
    SecondInitFails(c, moves);
    if s.redis {
      DownIsIdle(c, s);
      StaysSpent(c, s, later);
      SystemRunKeepsInv(c, s, later);
      SpentIsDown(c, SystemRun(c, s, later));
    }
  }

  lemma SpentIsDown(c: Code, s: System)
    requires SystemInv(c, s) && Spent(s)
    ensures s.outer.worker !in {Loop, Cleanup, WriteWaiting} && Down(s.tcp) && Down(s.xmpp)
  {
  }

  /** All that a stopped push server keeps is that its Redis client is initialised. */
  lemma DownIsIdle(c: Code, s: System)
    requires SystemInv(c, s) && Down(s.outer)
    ensures s == IDLE_SYSTEM.(redis := s.redis, aborted := s.aborted)
  {
    assert Stopped(s.outer) && Stopped(s.tcp) && Stopped(s.xmpp);
  }

  /** A start under way that no stop interferes with, on a Redis client that was not initialised before it. */
  predicate FirstStart(s: System) {
    s.outer.control in {Idle, StartAssert, StartWrite, StartThread}
    && (s.redis ==> (s.outer.worker == Setup && s.begun) || s.outer.worker == Loop)
  }

  lemma {:induction false} StaysFirst(c: Code, s: System, moves: seq<SystemMove>)
    requires c.protocol == AS_WRITTEN && SystemInv(c, s) && FirstStart(s) && OwnerMove(Stop) !in moves
    ensures FirstStart(SystemRun(c, s, moves))
    decreases |moves|
  {
    hide SystemInv, FirstStart, SystemStep;
    if moves != [] {
      StaysFirst(c, s, moves[..|moves| - 1]);
      SystemRunKeepsInv(c, s, moves[..|moves| - 1]);
      StepStaysFirst(c, SystemRun(c, s, moves[..|moves| - 1]), moves[|moves| - 1]);
    }
  }

  lemma StepStaysFirst(c: Code, s: System, move: SystemMove)
    requires c.protocol == AS_WRITTEN && SystemInv(c, s) && FirstStart(s) && move != OwnerMove(Stop)
    ensures FirstStart(SystemStep(c, s, move))
  {
    hide Coupled;
  }

  function Repeated(c: Code, s: System, move: SystemMove, n: nat): System
    decreases n
  {
    if n == 0 then s else Repeated(c, SystemStep(c, s, move), move, n - 1)
  }

  lemma {:induction false} RunRepeats(c: Code, s: System, moves: seq<SystemMove>, move: SystemMove, n: nat)
    ensures SystemRun(c, s, moves + seq(n, _ => move)) == Repeated(c, SystemRun(c, s, moves), move, n)
    decreases n
  {
    if n == 0 {
      assert moves + seq(n, _ => move) == moves;
    } else {
      RunRepeats(c, s, moves + [move], move, n - 1);
      assert moves + [move] + seq(n - 1, _ => move) == moves + seq(n, _ => move);
      assert (moves + [move])[..|moves|] == moves;
    }
  }

  lemma StartComesToInit(c: Code, s: System)
    requires c.protocol == AS_WRITTEN && s == IDLE_SYSTEM.(redis := true)
    ensures var starting := Repeated(c, s, OwnerMove(Start), 4); InitFails(Repeated(c, starting, OuterWork, 3))
  {
    var starting := s.(outer := Object(Starting, true, Idle, AssertStarting, true));
    assert Repeated(c, s, OwnerMove(Start), 4) == starting;
    WorkComesToInit(c, starting);
  }

  lemma WorkComesToInit(c: Code, s: System)
    requires c.protocol == AS_WRITTEN && s.redis && !s.begun && !s.aborted
    requires s.outer == Object(Starting, true, Idle, AssertStarting, true)
    ensures InitFails(Repeated(c, s, OuterWork, 3))
  {
    hide XmppStep, ControlStep;
  }

  lemma SecondStart(c: Code, s: System) returns (moves: seq<SystemMove>)
    requires c.protocol == AS_WRITTEN && s == IDLE_SYSTEM.(redis := true)
    ensures OwnerMove(Stop) !in moves && InitFails(SystemRun(c, s, moves))
  {
    hide InitFails, SystemRun, Repeated;
    var starts := seq(4, _ => OwnerMove(Start));
    moves := starts + seq(3, _ => OuterWork);
    NoMoves(c, s);
    RunRepeats(c, s, [], OwnerMove(Start), 4);
    assert [] + starts == starts;
    RunRepeats(c, s, starts, OuterWork, 3);
    StartComesToInit(c, s);
  }

  /** From a push server that is down, the next start, without a stop, can come to fail in init if and only if the
      Redis client is initialised already. */
  lemma StartMeetsInit(c: Code, s: System)
    requires c.protocol == AS_WRITTEN && SystemInv(c, s) && Down(s.outer) && !s.aborted
    ensures s.redis <==> exists moves :: OwnerMove(Stop) !in moves && InitFails(SystemRun(c, s, moves))
  {
    DownIsIdle(c, s);
    hide SystemInv, InitFails, SystemRun;
    if s.redis {
      var moves := SecondStart(c, s);
    } else {
      forall moves | OwnerMove(Stop) !in moves ensures !InitFails(SystemRun(c, s, moves)) {
        StaysFirst(c, s, moves);
        FirstMeetsNoInit(SystemRun(c, s, moves));
      }
    }
  }

  lemma NoMoves(c: Code, s: System)
    ensures SystemRun(c, s, []) == s
  {
  }

  lemma FirstMeetsNoInit(s: System)
    ensures FirstStart(s) ==> !InitFails(s)
  {
  }

  lemma {:induction false} PassedGrows(c: Code, moves: seq<SystemMove>, later: seq<SystemMove>)
    ensures Passed(c, moves) <= Passed(c, moves + later)
    decreases |later|
  {
    var n := |later| - 1;
    if later == [] {
      assert moves + later == moves;
    } else {
      PassedGrows(c, moves, later[..n]);
      assert (moves + later)[..|moves + later| - 1] == moves + later[..n];
    }
  }

  /** So a push server that was RUNNING once and is down again cannot be started again. */
  lemma RunningOnlyOnce(c: Code, moves: seq<SystemMove>, later: seq<SystemMove>)
    requires c.protocol.startingFirst && SystemRun(c, IDLE_SYSTEM, moves).outer.state == Running
    requires Down(SystemRun(c, IDLE_SYSTEM, moves + later).outer)
    ensures SystemRun(c, IDLE_SYSTEM, moves + later).redis
  {
    RunFromIdle(c, moves);
    SecondInitFails(c, moves);
    PassedGrows(c, moves, later);
    NeverServesAgain(c, moves + later, []);
  }
}
