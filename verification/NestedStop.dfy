/** The stop of the whole push server, under schedules that are fair to its four threads: when it ends with all three
    objects down, and which stops no schedule can spoil. Requests come as they like. */
module NestedStop {
  import opened Fairness
  import opened Lifecycle
  import opened NestedLifecycle

  datatype Thread = Owner | OuterWorker | TcpWorker | XmppWorker | Client

  const FOUR := {Owner, OuterWorker, TcpWorker, XmppWorker}

  function ThreadOf(move: SystemMove): Thread {
    match move
    case OwnerMove(_) => Owner
    case OuterWork => OuterWorker
    case TcpWork => TcpWorker
    case XmppWork => XmppWorker
    case Request => Client
  }

  // ---------- When the outer stop returns ----------

  function StartLeft(o: Object): nat {
    match o.control
    case Idle => if o.started then 0 else 4
    case StartAssert => 3
    case StartWrite => 2
    case StartThread => 1
    case _ => 0
  }

  function InnerLeft(s: System): nat {
    match s.outer.worker
    case Setup => StartLeft(s.tcp) + StartLeft(s.xmpp) + if s.begun then 0 else 1
    case Cleanup => Rank(s.tcp) + Rank(s.xmpp) + if s.owing then 5 else 0
    case _ => 0
  }

  function SystemRank(s: System): nat {
    1000 * Rank(s.outer) + if s.outer.control == Join then InnerLeft(s) else 999
  }

  predicate WaitsForWorker(o: Object) {
    o.control == Join && o.worker != Finished
  }

  function SystemHelpful(s: System): Thread {
    if !WaitsForWorker(s.outer) then Owner
    else if s.outer.worker == Cleanup && WaitsForWorker(s.tcp) then TcpWorker
    else if s.outer.worker == Cleanup && Down(s.tcp) && !s.owing && WaitsForWorker(s.xmpp) then XmppWorker
    else OuterWorker
  }

  /** One of the three requests to stop is lost. */
  predicate AnyLost(s: System) {
    Lost(s.outer) || Lost(s.tcp) || Lost(s.xmpp)
  }

  /** A request is lost, or the process has ended. */
  predicate Spoilt(s: System) {
    AnyLost(s) || s.aborted
  }

  predicate Ending(c: Code, s: System) {
    SystemInv(c, s) && InStop(s.outer) && !Spoilt(s)
  }

  predicate AllStopped(s: System) {
    Returned(s.outer) && Stopped(s.tcp) && Stopped(s.xmpp) && !s.aborted
  }

  ghost predicate Nearer(c: Code, s: System, move: SystemMove, r: System) {
    || AllStopped(r)
    || Spoilt(r)
    || (Ending(c, r) && (SystemRank(r) < SystemRank(s)
                         || (ThreadOf(move) != SystemHelpful(s) && SystemRank(r) == SystemRank(s)
                             && SystemHelpful(r) == SystemHelpful(s))))
  }

  lemma OwnerNearer(c: Code, s: System, call: Call)
    requires c.protocol.startingFirst && Ending(c, s)
    ensures Nearer(c, s, OwnerMove(call), SystemStep(c, s, OwnerMove(call)))
  {
    hide WorkStep;
    SystemStepKeepsInv(c, s, OwnerMove(call));
    StopAdvances(c.protocol, s.outer, Control(call));
    WorkersOf(s);
  }

  lemma StartStepLeft(v: Variant, o: Object)
    requires v.startingFirst && Inv(v, o) && GoingUp(o) && !Up(o)
    ensures StartLeft(ControlStep(v, o, Start)) < StartLeft(o) <= 4
  {
  }

  lemma StopStepRank(v: Variant, o: Object)
    requires v.startingFirst && Inv(v, o) && GoingDown(o) && !Down(o)
    ensures var r := ControlStep(v, o, Stop);
            && (if WaitsForWorker(o) then r == o else Rank(r) < Rank(o))
            && (o.control == StopWrite ==> Rank(r) + 5 < Rank(o))
  {
  }

  lemma WorkStepRank(v: Variant, o: Object)
    requires v.startingFirst && Inv(v, o) && !Lost(o)
    ensures var r := WorkStep(v, o);
            && (if WaitsForWorker(o) then Rank(r) < Rank(o) else Rank(r) == Rank(o) && !WaitsForWorker(r))
            && StartLeft(r) == StartLeft(o)
            && (Up(r) <==> Up(o)) && (Down(r) <==> Down(o)) && (InStop(r) <==> InStop(o))
  {
  }

  lemma OuterNearer(c: Code, s: System)
    requires c.protocol.startingFirst && Ending(c, s)
    ensures Nearer(c, s, OuterWork, SystemStep(c, s, OuterWork))
  {
    hide Inv, Rank, StartLeft, ControlStep, WorkStep, Coupled, InStop, Lost;
    var v := c.protocol;
    SystemStepKeepsInv(c, s, OuterWork);
    WorkStepRank(v, s.outer);
    WorkKeepsControl(v, s.outer);
    WorkersOf(s);
    WorkersOf(SystemStep(c, s, OuterWork));
    if s.outer.worker == Setup && s.begun && !Up(s.tcp) {
      StartStepLeft(v, s.tcp);
    } else if s.outer.worker == Setup && s.begun && !Up(s.xmpp) {
      StartStepLeft(v, s.xmpp);
    } else if s.outer.worker == Cleanup && !Down(s.tcp) {
      StopStepRank(v, s.tcp);
    } else if s.outer.worker == Cleanup && !s.owing && !Down(s.xmpp) {
      StopStepRank(v, s.xmpp);
    }
  }

  /** The phases of the outer worker, without the rest of the invariant. */
  lemma WorkersOf(s: System)
    requires Coupled(s)
    ensures s.outer.worker == Setup ==> GoingUp(s.tcp) && (Up(s.tcp) ==> GoingUp(s.xmpp))
    ensures s.outer.worker == Cleanup ==> GoingDown(s.tcp) && (Down(s.tcp) ==> GoingDown(s.xmpp))
    ensures s.outer.worker !in {Setup, Loop, Cleanup} ==> Down(s.tcp) && Down(s.xmpp)
    ensures InnerLeft(s) <= 183
  {
  }

  lemma InnerNearer(c: Code, s: System, move: SystemMove)
    requires c.protocol.startingFirst && Ending(c, s) && move in {TcpWork, XmppWork, Request}
    ensures Nearer(c, s, move, SystemStep(c, s, move))
  {
    hide Inv, Rank, StartLeft, WorkStep, InStop, Lost;
    SystemStepKeepsInv(c, s, move);
    WorkStepRank(c.protocol, s.tcp);
    WorkStepRank(c.protocol, s.xmpp);
  }

  lemma OuterKeepsLost(c: Code, s: System)
    requires c.protocol.startingFirst && SystemInv(c, s) && AnyLost(s)
    ensures AnyLost(SystemStep(c, s, OuterWork))
  {
    hide Inv, Provided, ControlStep, WorkStep, Fails;
    LostStays(c.protocol, s.outer, Work);
    LostStays(c.protocol, s.tcp, Control(Stop));
    LostStays(c.protocol, s.xmpp, Control(Stop));
  }

  /** What is lost stays lost, whoever moves: the outer worker waits for the inner one, and the owner for the
      outer one. */
  lemma AnyLostStays(c: Code, s: System, move: SystemMove)
    requires c.protocol.startingFirst && SystemInv(c, s) && AnyLost(s)
    ensures AnyLost(SystemStep(c, s, move)) && !AllStopped(s)
  {
    hide Inv, Provided, Coupled, ControlStep, WorkStep, OuterStep, Fails;
    match move
    case OwnerMove(call) => LostStays(c.protocol, s.outer, Control(call));
    case OuterWork => OuterKeepsLost(c, s);
    case TcpWork => LostStays(c.protocol, s.tcp, Work);
    case XmppWork => LostStays(c.protocol, s.xmpp, Work);
    case Request =>
  }

  function SystemStepper(c: Code): (System, SystemMove) -> System {
    (s, move) => SystemStep(c, s, move)
  }

  function Threads(): SystemMove -> Thread {
    move => ThreadOf(move)
  }

  function AreStopped(): System -> bool {
    s => AllStopped(s)
  }

  function IsSpoilt(): System -> bool {
    s => Spoilt(s)
  }

  /** Under the schedule, some time or other all three objects are down. */
  ghost predicate SystemReturns(c: Code, s: System, schedule: nat -> SystemMove) {
    Ends(SystemStepper(c), s, schedule, AreStopped())
  }

  /** Under the schedule, one of the requests gets lost or the process ends while the stop is under way. */
  ghost predicate SystemFails(c: Code, s: System, schedule: nat -> SystemMove) {
    FailsFirst(SystemStepper(c), s, schedule, AreStopped(), IsSpoilt())
  }

  function SystemStopping(c: Code): Progress<System, SystemMove, Thread> {
    Progress(s => Ending(c, s), s => AllStopped(s) || Spoilt(s), s => SystemRank(s), s => SystemHelpful(s))
  }

  lemma SpoiltStays(c: Code, s: System, move: SystemMove)
    requires c.protocol.startingFirst && SystemInv(c, s) && Spoilt(s)
    ensures Spoilt(SystemStep(c, s, move)) && !AllStopped(s)
  {
    hide SystemInv, AnyLost, Fails;
    if AnyLost(s) {
      AnyLostStays(c, s, move);
    }
  }

  lemma SystemStoppingIsSound(c: Code)
    requires c.protocol.startingFirst
    ensures Sound(SystemStepper(c), Threads(), FOUR, SystemStopping(c))
    ensures Irreparable(SystemStepper(c), s => SystemInv(c, s), AreStopped(), IsSpoilt())
  {
    hide Ending, AllStopped, Spoilt, SystemStep, SystemRank, SystemInv;
    var p := SystemStopping(c);
    forall s, move | p.good(s) && !p.goal(s) ensures Advances(SystemStepper(c), Threads(), p, s, move) {
      match move
      case OwnerMove(call) => OwnerNearer(c, s, call);
      case OuterWork => OuterNearer(c, s);
      case _ => InnerNearer(c, s, move);
    }
    forall s, move | SystemInv(c, s)
      ensures SystemInv(c, SystemStep(c, s, move)) && (Spoilt(s) ==> Spoilt(SystemStep(c, s, move)) && !AllStopped(s))
    {
      SystemStepKeepsInv(c, s, move);
      if Spoilt(s) {
        SpoiltStays(c, s, move);
      }
    }
  }

  /** From any point of a stop of the push server: under every schedule that is fair to the four threads, all three
      objects are down some time or other if and only if none of the three requests gets lost, and the process does
      not end, before. */
  lemma SystemReturnsUnlessLost(c: Code, s: System, schedule: nat -> SystemMove)
    requires c.protocol.startingFirst
    requires SystemInv(c, s) && (InStop(s.outer) || Spoilt(s)) && Fair(schedule, Threads(), FOUR)
    ensures SystemReturns(c, s, schedule) <==> !SystemFails(c, s, schedule)
  {
    hide AllStopped, Spoilt, SystemInv, InStop;
    SystemStoppingIsSound(c);
    EndsUnlessBad(SystemStepper(c), Threads(), FOUR, SystemStopping(c), r => SystemInv(c, r),
                  AreStopped(), IsSpoilt(), s, schedule);
  }

  function IsAborted(): System -> bool {
    (s: System) => s.aborted
  }

  /** With atomic tests no request can get lost: a stop of the push server returns under every fair schedule under
      which the process does not end before. */
  lemma AtomicSystemStops(c: Code, s: System, schedule: nat -> SystemMove)
    requires c.protocol == ATOMIC && SystemInv(c, s) && InStop(s.outer) && Fair(schedule, Threads(), FOUR)
    ensures SystemReturns(c, s, schedule)
            <==> !FailsFirst(SystemStepper(c), s, schedule, AreStopped(), IsAborted())
  {
    hide AllStopped, SystemInv, InStop, AnyLost, EndedBefore;
    SystemReturnsUnlessLost(c, s, schedule);
    SystemStoppingIsSound(c);
    forall n: nat ensures !AnyLost(At(SystemStepper(c), s, schedule, n)) {
      StaysBad(SystemStepper(c), r => SystemInv(c, r), AreStopped(), IsSpoilt(), s, schedule, n, n);
      NoneLost(c, At(SystemStepper(c), s, schedule, n));
    }
    forall n: nat
      ensures IsSpoilt()(At(SystemStepper(c), s, schedule, n)) == IsAborted()(At(SystemStepper(c), s, schedule, n))
    {
      assert !AnyLost(At(SystemStepper(c), s, schedule, n));
    }
  }

  lemma NoneLost(c: Code, s: System)
    requires c.protocol == ATOMIC && SystemInv(c, s)
    ensures !AnyLost(s)
  {
  }

  // ---------- Which stops are at risk ----------

  /** The request is lost, or is still to be written while the worker has not yet written RUNNING. */
  predicate InnerAtRisk(o: Object) {
    Lost(o) || (o.started && o.control in {Idle, StopFirst, StopWaiting, StopWrite} && o.state == Starting)
  }

  /** A request can come between the start of the TCP server and the set-up of the XMPP client. */
  predicate RequestAtRisk(s: System) {
    s.xmpp.worker == Setup && s.tcp.worker in {Setup, Loop, Cleanup}
  }

  /** The XMPP worker can release its context between the request to stop and xmpp_stop. */
  predicate ContextAtRisk(c: Code, s: System) {
    !c.guarded && s.xmpp.started
    && (s.owing || s.xmpp.control in {Idle, StopFirst, StopSecond, StopWaiting, StopWrite})
  }

  /** One of the objects is at risk, or is still to be started before it is stopped; or the process is. */
  predicate SystemAtRisk(c: Code, s: System) {
    || AtRisk(s.outer)
    || (s.outer.worker == Setup && !(s.begun && Up(s.tcp) && Up(s.xmpp)))
    || InnerAtRisk(s.tcp)
    || InnerAtRisk(s.xmpp)
    || RequestAtRisk(s)
    || ContextAtRisk(c, s)
  }

  predicate SystemIsSafe(c: Code, s: System) {
    SystemInv(c, s) && !s.aborted && (AllStopped(s) || (InStop(s.outer) && !SystemAtRisk(c, s)))
  }

  lemma InnerStaysSafe(o: Object)
    requires Inv(AS_WRITTEN, o) && !InnerAtRisk(o)
    ensures !InnerAtRisk(WorkStep(AS_WRITTEN, o))
    ensures WorkStep(AS_WRITTEN, o).worker == Setup ==> o.worker == Setup
    ensures GoingDown(o) && !Down(o) ==> !InnerAtRisk(ControlStep(AS_WRITTEN, o, Stop))
    ensures o.control !in {Idle, StopFirst, StopSecond, StopWaiting, StopWrite} && GoingDown(o) ==>
              var r := ControlStep(AS_WRITTEN, o, Stop);
              !r.started || r.control !in {Idle, StopFirst, StopSecond, StopWaiting, StopWrite}
  {
  }

  lemma SafeIsNotAborted(c: Code, s: System, move: SystemMove)
    requires c.protocol == AS_WRITTEN && SystemInv(c, s) && !SystemAtRisk(c, s) && InStop(s.outer)
    ensures !Fails(c, s, move)
  {
  }

  lemma OuterStaysSafe(c: Code, s: System)
    requires c.protocol == AS_WRITTEN && SystemIsSafe(c, s) && !AllStopped(s)
    ensures SystemIsSafe(c, SystemStep(c, s, OuterWork))
  {
    hide Inv, AtRisk, InnerAtRisk, WorkStep, ControlStep, InStop, Stopped, Returned, Fails;
    SystemStepKeepsInv(c, s, OuterWork);
    SafeIsNotAborted(c, s, OuterWork);
    WorkersOf(s);
    SafeStaysSafe(s.outer, Work);
    SafeStartsNothing(s.outer);
    WorkKeepsControl(AS_WRITTEN, s.outer);
    InnerStaysSafe(s.tcp);
    InnerStaysSafe(s.xmpp);
    OwnerKeepsWorker(AS_WRITTEN, s.tcp, Stop);
    OwnerKeepsWorker(AS_WRITTEN, s.xmpp, Stop);
    ReturnedIsDown(c, SystemStep(c, s, OuterWork));
  }

  lemma SystemStaysSafe(c: Code, s: System, move: SystemMove)
    requires c.protocol == AS_WRITTEN && SystemIsSafe(c, s) && !AllStopped(s)
    ensures SystemIsSafe(c, SystemStep(c, s, move))
  {
    hide Inv, AtRisk, InnerAtRisk, WorkStep, ControlStep, InStop, Stopped, Returned, Fails;
    SystemStepKeepsInv(c, s, move);
    SafeIsNotAborted(c, s, move);
    WorkersOf(s);
    match move
    case OwnerMove(call) =>
      SafeStaysSafe(s.outer, Control(call));
      OwnerKeepsWorker(AS_WRITTEN, s.outer, call);
      ReturnedIsDown(c, SystemStep(c, s, move));
    case OuterWork => OuterStaysSafe(c, s);
    case TcpWork =>
      InnerStaysSafe(s.tcp);
      WorkKeepsControl(AS_WRITTEN, s.tcp);
    case XmppWork =>
      InnerStaysSafe(s.xmpp);
      WorkKeepsControl(AS_WRITTEN, s.xmpp);
    case Request =>
  }

  lemma SafeStartsNothing(o: Object)
    requires Inv(AS_WRITTEN, o) && InStop(o) && !AtRisk(o)
    ensures WorkStep(AS_WRITTEN, o).worker != Setup
  {
  }

  lemma ReturnedIsDown(c: Code, s: System)
    requires c.protocol == AS_WRITTEN && SystemInv(c, s) && !s.aborted
    ensures Returned(s.outer) ==> AllStopped(s)
  {
  }

  lemma {:induction false} SystemSafeNeverFails(c: Code, s: System, schedule: nat -> SystemMove, n: nat)
    requires c.protocol == AS_WRITTEN && SystemIsSafe(c, s)
    requires !EndedBefore(SystemStepper(c), s, schedule, AreStopped(), n)
    ensures SystemIsSafe(c, At(SystemStepper(c), s, schedule, n))
    decreases n
  {
    hide SystemIsSafe, AllStopped, SystemStep;
    if n > 0 {
      var r := At(SystemStepper(c), s, schedule, n - 1);
      assert !EndedBefore(SystemStepper(c), s, schedule, AreStopped(), n - 1);
      SystemSafeNeverFails(c, s, schedule, n - 1);
      AtNext(SystemStepper(c), s, schedule, n - 1);
      assert !AreStopped()(r);
      SystemStaysSafe(c, r, schedule(n - 1));
    }
  }

  function InnerLosingMove(o: Object, work: SystemMove): SystemMove {
    if InnerAtRisk(o) then (if o.worker == WriteRunning then OuterWork else work)
    else if WaitsForWorker(o) then work
    else OuterWork
  }

  /** The way to a loss: whoever is at risk goes up to its write and is then asked to stop; a request comes while
      there is no connection; the XMPP worker is done before xmpp_stop is called; everyone else moves on. */
  function SystemLosingMove(s: System): SystemMove {
    if AtRisk(s.outer) then (if s.outer.worker == WriteRunning then OwnerMove(Stop) else OuterWork)
    else if s.outer.control != Join then OwnerMove(Stop)
    else if RequestAtRisk(s) then (if s.tcp.worker == Setup then TcpWork else Request)
    else if s.outer.worker == Cleanup && !Down(s.tcp) then InnerLosingMove(s.tcp, TcpWork)
    else if s.outer.worker == Cleanup && s.owing then (if s.context then XmppWork else OuterWork)
    else if s.outer.worker == Cleanup && !Down(s.xmpp) then InnerLosingMove(s.xmpp, XmppWork)
    else OuterWork
  }

  function WorkersLeft(s: System): nat {
    WorkLeft(s.outer.worker) + WorkLeft(s.tcp.worker) + WorkLeft(s.xmpp.worker)
  }

  predicate RiskIsNearer(c: Code, s: System, r: System) {
    && SystemInv(c, r)
    && (Spoilt(r)
        || (SystemAtRisk(c, r) && InStop(r.outer)
            && (SystemRank(r) < SystemRank(s)
                || (SystemRank(r) == SystemRank(s) && WorkersLeft(r) < WorkersLeft(s)))))
  }

  /** Between the call of stop and its request. */
  predicate Risky(c: Code, s: System) {
    c.protocol == AS_WRITTEN && SystemInv(c, s) && InStop(s.outer) && SystemAtRisk(c, s) && !Spoilt(s)
  }

  lemma OuterRiskRemains(c: Code, s: System)
    requires Risky(c, s) && AtRisk(s.outer)
    ensures RiskIsNearer(c, s, SystemStep(c, s, SystemLosingMove(s)))
  {
    hide InnerAtRisk, Rank, Coupled, AtRisk, Inv, ControlStep, WorkStep, InStop, WorkLeft, ContextAtRisk;
    SystemStepKeepsInv(c, s, SystemLosingMove(s));
    RiskRemains(s.outer);
    RiskIsEarly(s.outer);
    WorkersOf(SystemStep(c, s, SystemLosingMove(s)));
  }

  lemma RiskIsEarly(o: Object)
    requires Inv(AS_WRITTEN, o) && AtRisk(o) && !Lost(o)
    ensures o.control != Join && o.worker in {AssertStarting, TestStarting, WriteRunning}
    ensures o.worker == WriteRunning ==> WorkLeft(Step(AS_WRITTEN, o, Control(Stop)).worker) == WorkLeft(o.worker)
  {
  }

  /** An inner object that is at risk and being stopped comes closer to its loss. */
  lemma InnerRiskRemains(o: Object)
    requires Inv(AS_WRITTEN, o) && InnerAtRisk(o) && !Lost(o) && GoingDown(o)
    ensures !Down(o) && !WaitsForWorker(o) && o.control != Join
    ensures if o.worker == WriteRunning then
              var r := ControlStep(AS_WRITTEN, o, Stop);
              InnerAtRisk(r) && Rank(r) < Rank(o) && (o.control == StopWrite ==> Lost(r))
            else
              var r := WorkStep(AS_WRITTEN, o);
              InnerAtRisk(r) && Rank(r) == Rank(o) && WorkLeft(r.worker) < WorkLeft(o.worker)
  {
  }

  /** An inner object that is still to be asked, or waits for a context yet to be used. */
  lemma AskedSoon(o: Object)
    requires Inv(AS_WRITTEN, o) && GoingDown(o) && o.started && !InnerAtRisk(o)
    requires o.control in {Idle, StopFirst, StopSecond, StopWaiting, StopWrite}
    ensures var r := ControlStep(AS_WRITTEN, o, Stop);
            r.started && if o.control == StopWrite then r.control == Join
                         else r.control in {StopFirst, StopSecond, StopWaiting, StopWrite}
  {
  }

  lemma DownIsSafe(o: Object)
    ensures Down(o) ==> !InnerAtRisk(o) && !o.started
  {
  }

  /** While the outer worker waits for the end of the TCP server. */
  lemma TcpRiskIsNearer(c: Code, s: System)
    requires Risky(c, s) && !AtRisk(s.outer) && !RequestAtRisk(s)
    requires s.outer.control == Join && s.outer.worker == Cleanup && !Down(s.tcp)
    ensures RiskIsNearer(c, s, SystemStep(c, s, SystemLosingMove(s)))
  {
    hide InnerAtRisk, AtRisk, Rank, Inv, ControlStep, WorkStep, WorkLeft, Lost;
    SystemStepKeepsInv(c, s, SystemLosingMove(s));
    DownIsSafe(s.xmpp);
    if InnerAtRisk(s.tcp) {
      InnerRiskRemains(s.tcp);
    } else if WaitsForWorker(s.tcp) {
      WorkStepRank(AS_WRITTEN, s.tcp);
    } else {
      StopStepRank(AS_WRITTEN, s.tcp);
    }
  }

  /** While a request can come too early. */
  lemma RequestRiskIsNearer(c: Code, s: System)
    requires Risky(c, s) && !AtRisk(s.outer) && RequestAtRisk(s) && s.outer.control == Join
    ensures RiskIsNearer(c, s, SystemStep(c, s, SystemLosingMove(s)))
  {
    hide InnerAtRisk, AtRisk, Rank, Inv, Coupled, ControlStep, WorkLeft, Lost;
    SystemStepKeepsInv(c, s, SystemLosingMove(s));
    WorkStepRank(AS_WRITTEN, s.tcp);
    FromSetup(s.tcp);
  }

  lemma FromSetup(o: Object)
    ensures o.worker == Setup ==>
              var r := WorkStep(AS_WRITTEN, o); r == o.(worker := Loop) && WorkLeft(r.worker) < WorkLeft(o.worker)
  {
  }

  /** While the outer worker waits for the end of the XMPP client. */
  lemma XmppRiskIsNearer(c: Code, s: System)
    requires Risky(c, s) && !AtRisk(s.outer) && !RequestAtRisk(s)
    requires s.outer.control == Join && s.outer.worker == Cleanup && Down(s.tcp) && !s.owing
    ensures RiskIsNearer(c, s, SystemStep(c, s, SystemLosingMove(s)))
  {
    hide InnerAtRisk, AtRisk, Rank, Inv, ControlStep, WorkStep, WorkLeft, Lost;
    SystemStepKeepsInv(c, s, SystemLosingMove(s));
    DownIsSafe(s.tcp);
    DownIsSafe(s.xmpp);
    if InnerAtRisk(s.xmpp) {
      InnerRiskRemains(s.xmpp);
    } else {
      AskedSoon(s.xmpp);
      StopStepRank(AS_WRITTEN, s.xmpp);
    }
  }

  /** While xmpp_stop is still to be called. */
  lemma OwingRiskIsNearer(c: Code, s: System)
    requires Risky(c, s) && !AtRisk(s.outer) && !RequestAtRisk(s)
    requires s.outer.control == Join && s.outer.worker == Cleanup && Down(s.tcp) && s.owing
    ensures RiskIsNearer(c, s, SystemStep(c, s, SystemLosingMove(s)))
  {
    hide AtRisk, Rank, Inv, ControlStep, WorkStep, WorkLeft, Lost;
    SystemStepKeepsInv(c, s, SystemLosingMove(s));
    assert !c.guarded;
    if s.context {
      WorkStepRank(AS_WRITTEN, s.xmpp);
      WorkKeepsControl(AS_WRITTEN, s.xmpp);
    }
  }

  lemma StartedIsAtRisk(o: Object)
    requires Inv(AS_WRITTEN, o) && GoingUp(o) && !Up(o)
    ensures Up(ControlStep(AS_WRITTEN, o, Start)) ==> InnerAtRisk(ControlStep(AS_WRITTEN, o, Start))
  {
  }

  lemma AskedGoesOn(o: Object)
    requires Inv(AS_WRITTEN, o) && o.control == Join && !Lost(o)
    ensures o.worker == Loop ==> WorkStep(AS_WRITTEN, o) == o.(worker := Cleanup)
    ensures o.worker == Setup ==> WorkStep(AS_WRITTEN, o) == o.(worker := Loop)
  {
  }

  lemma RiskyIsNotStopped(s: System)
    requires InnerAtRisk(s.tcp) || InnerAtRisk(s.xmpp) || s.outer.worker == Setup || s.xmpp.started
             || s.xmpp.worker == Setup
    ensures !AllStopped(s)
  {
  }

  /** Until the inner objects are to be stopped, the outer worker moves on. */
  lemma EarlyRiskIsNearer(c: Code, s: System)
    requires Risky(c, s) && !AtRisk(s.outer) && !RequestAtRisk(s)
    requires s.outer.control == Join && s.outer.worker != Cleanup
    ensures RiskIsNearer(c, s, SystemStep(c, s, SystemLosingMove(s)))
  {
    hide InnerAtRisk, AtRisk, Rank, Inv, ControlStep, WorkStep, WorkLeft, InnerLeft, AllStopped, InStop, Lost, Provided;
    OuterNearer(c, s);
    DownIsSafe(s.tcp);
    DownIsSafe(s.xmpp);
    WorkersOf(s);
    AskedGoesOn(s.outer);
    if s.outer.worker == Setup && s.begun && !Up(s.tcp) {
      StartedIsAtRisk(s.tcp);
    } else if s.outer.worker == Setup && s.begun && !Up(s.xmpp) {
      StartedIsAtRisk(s.xmpp);
    }
    RiskyIsNotStopped(SystemStep(c, s, OuterWork));
    SystemStepKeepsInv(c, s, OuterWork);
  }

  /** Until the outer request is written, the owner moves on. */
  lemma OwnerRiskIsNearer(c: Code, s: System)
    requires Risky(c, s) && !AtRisk(s.outer) && s.outer.control != Join
    ensures RiskIsNearer(c, s, SystemStep(c, s, SystemLosingMove(s)))
  {
    hide InnerAtRisk, Rank, Inv, ControlStep, WorkStep, WorkLeft, InnerLeft, InStop, Provided;
    OwnerNearer(c, s, Stop);
    SafeStaysSafe(s.outer, Control(Stop));
    OwnerKeepsWorker(AS_WRITTEN, s.outer, Stop);
    DownIsSafe(s.tcp);
    DownIsSafe(s.xmpp);
    WorkersOf(s);
    RiskyIsNotStopped(SystemStep(c, s, OwnerMove(Stop)));
    SystemStepKeepsInv(c, s, OwnerMove(Stop));
  }

  lemma SystemRiskRemains(c: Code, s: System)
    requires Risky(c, s)
    ensures RiskIsNearer(c, s, SystemStep(c, s, SystemLosingMove(s)))
  {
    hide InnerAtRisk, AtRisk, RiskIsNearer, Inv, RequestAtRisk, ContextAtRisk;
    if AtRisk(s.outer) {
      OuterRiskRemains(c, s);
    } else if s.outer.control != Join {
      OwnerRiskIsNearer(c, s);
    } else if RequestAtRisk(s) {
      RequestRiskIsNearer(c, s);
    } else if s.outer.worker != Cleanup {
      EarlyRiskIsNearer(c, s);
    } else if !Down(s.tcp) {
      TcpRiskIsNearer(c, s);
    } else if s.owing {
      OwingRiskIsNearer(c, s);
    } else {
      XmppRiskIsNearer(c, s);
    }
  }

  function InRotation(): nat -> SystemMove {
    n =>
      if n % 4 == 0 then OwnerMove(Stop) else if n % 4 == 1 then OuterWork else if n % 4 == 2 then TcpWork else XmppWork
  }

  lemma RotationIsFair()
    ensures Fair(InRotation(), Threads(), FOUR)
  {
    forall a, n: nat | a in FOUR ensures Moves(InRotation(), Threads(), a, n) {
      assert Threads()(InRotation()(4 * n)) == Owner;
      assert Threads()(InRotation()(4 * n + 1)) == OuterWorker;
      assert Threads()(InRotation()(4 * n + 2)) == TcpWorker;
      assert Threads()(InRotation()(4 * n + 3)) == XmppWorker;
    }
  }

  lemma SpoiltNeverReturns(c: Code, s: System, schedule: nat -> SystemMove)
    requires c.protocol.startingFirst && SystemInv(c, s) && Spoilt(s) && Fair(schedule, Threads(), FOUR)
    ensures !SystemReturns(c, s, schedule)
  {
    hide SystemInv, Spoilt, AllStopped;
    assert SystemFails(c, s, schedule) by {
      assert IsSpoilt()(At(SystemStepper(c), s, schedule, 0));
    }
    SystemReturnsUnlessLost(c, s, schedule);
  }

  lemma {:induction false} SystemRiskLoses(c: Code, s: System) returns (schedule: nat -> SystemMove)
    requires c.protocol == AS_WRITTEN && SystemInv(c, s)
    requires Spoilt(s) || (InStop(s.outer) && SystemAtRisk(c, s))
    ensures Fair(schedule, Threads(), FOUR) && !SystemReturns(c, s, schedule)
    decreases if Spoilt(s) then 0 else 1, SystemRank(s), WorkersLeft(s)
  {
    hide SystemInv, SystemAtRisk, Spoilt, AllStopped, SystemStep, SystemRank, WorkersLeft, InStop;
    if Spoilt(s) {
      RotationIsFair();
      schedule := InRotation();
      SpoiltNeverReturns(c, s, schedule);
    } else {
      SystemRiskRemains(c, s);
      var r := SystemStep(c, s, SystemLosingMove(s));
      var rest := SystemRiskLoses(c, r);
      AfterIsFair(SystemLosingMove(s), rest, Threads(), FOUR);
      schedule := After(SystemLosingMove(s), rest);
      StoppingIsNotStopped(s);
      forall n: nat ensures !AllStopped(At(SystemStepper(c), s, schedule, n)) {
        if n > 0 {
          SameMoves(SystemStepper(c), r, Later(schedule), rest, n - 1);
          assert !AreStopped()(At(SystemStepper(c), r, rest, n - 1));
        }
      }
    }
  }

  lemma StoppingIsNotStopped(s: System)
    ensures InStop(s.outer) ==> !AllStopped(s)
  {
  }

  /** From any point of a stop of the push server: it ends with all three objects down under every fair schedule if
      and only if it is not at risk. As written every call on a started server is at risk, since the XMPP worker may
      be done before xmpp_stop is called; if the missing context were left alone, a call would be safe exactly when
      it finds the server, the TCP server and the XMPP client all RUNNING and the context made. */
  lemma SystemReturnsUnlessAtRisk(c: Code, s: System)
    requires c.protocol == AS_WRITTEN && SystemInv(c, s) && InStop(s.outer) && !s.aborted
    ensures !SystemAtRisk(c, s)
            <==> forall schedule: nat -> SystemMove | Fair(schedule, Threads(), FOUR) :: SystemReturns(c, s, schedule)
    ensures s.outer.control == StopFirst && s.outer.started ==>
              (!SystemAtRisk(c, s) <==> c.guarded && s.outer.state == Running && s.tcp.state == Running
                                        && s.xmpp.state == Running && s.context)
  {
    if s.outer.control == StopFirst && s.outer.started {
      CallAtRisk(c, s);
    }
    hide SystemInv, SystemAtRisk, Spoilt, AllStopped, SystemStep, InStop;
    if SystemAtRisk(c, s) {
      var schedule := SystemRiskLoses(c, s);
    } else {
      SafeIsNotSpoilt(c, s);
      forall schedule: nat -> SystemMove | Fair(schedule, Threads(), FOUR) ensures SystemReturns(c, s, schedule) {
        SystemReturnsUnlessLost(c, s, schedule);
        forall n: nat | !EndedBefore(SystemStepper(c), s, schedule, AreStopped(), n)
          ensures !IsSpoilt()(At(SystemStepper(c), s, schedule, n))
        {
          SystemSafeNeverFails(c, s, schedule, n);
          SafeIsNotSpoilt(c, At(SystemStepper(c), s, schedule, n));
        }
      }
    }
  }

  lemma SafeIsNotSpoilt(c: Code, s: System)
    ensures SystemIsSafe(c, s) ==> !Spoilt(s)
  {
  }

  lemma CallAtRisk(c: Code, s: System)
    requires c.protocol == AS_WRITTEN && SystemInv(c, s) && s.outer.control == StopFirst && s.outer.started
    ensures !SystemAtRisk(c, s) <==> c.guarded && s.outer.state == Running && s.tcp.state == Running
                                     && s.xmpp.state == Running && s.context
  {
  }

  // ---------- A run that loses an inner request ----------

  ghost predicate Reachable(s: System) {
    exists moves :: SystemRun(WRITTEN, IDLE_SYSTEM, moves) == s
  }

  lemma StepsAreReachable(s: System, move: SystemMove, n: nat, r: System)
    requires Reachable(s) && Repeated(WRITTEN, s, move, n) == r
    ensures Reachable(r)
  {
    var moves :| SystemRun(WRITTEN, IDLE_SYSTEM, moves) == s;
    RunRepeats(WRITTEN, IDLE_SYSTEM, moves, move, n);
  }

  /** An object that was started, and whose worker has not moved yet. */
  const STARTED := Object(Starting, true, Idle, AssertStarting, true)

  const SERVING := STARTED.(state := Running, worker := Loop)

  /** A system with an initialised Redis client and without a context. */
  function Early(outer: Object, tcp: Object, xmpp: Object): System {
    System(outer, tcp, xmpp, true, false, outer.worker == Setup, false, false)
  }

  const SETTING_UP := STARTED.(state := Running, worker := Setup)

  lemma SetupIsReachable()
    ensures Reachable(Early(SETTING_UP, FRESH, FRESH))
  {
    StartIsReachable();
    StepsAreReachable(IDLE_SYSTEM.(outer := STARTED), OuterWork, 4, Early(SETTING_UP, FRESH, FRESH));
  }

  lemma StartIsReachable()
    ensures Reachable(IDLE_SYSTEM.(outer := STARTED))
  {
    assert SystemRun(WRITTEN, IDLE_SYSTEM, []) == IDLE_SYSTEM;
    StepsAreReachable(IDLE_SYSTEM, OwnerMove(Start), 4, IDLE_SYSTEM.(outer := STARTED));
  }

  lemma TcpStartIsReachable()
    ensures Reachable(Early(SETTING_UP, STARTED, FRESH))
  {
    hide XmppStep, WorkStep;
    SetupIsReachable();
    StepsAreReachable(Early(SETTING_UP, FRESH, FRESH), OuterWork, 4, Early(SETTING_UP, STARTED, FRESH));
  }

  lemma XmppStartIsReachable()
    ensures Reachable(Early(SETTING_UP, STARTED, STARTED))
  {
    hide XmppStep, WorkStep;
    TcpStartIsReachable();
    StepsAreReachable(Early(SETTING_UP, STARTED, FRESH), OuterWork, 4, Early(SETTING_UP, STARTED, STARTED));
  }

  lemma ServingIsReachable()
    ensures Reachable(Early(SERVING, STARTED, STARTED))
  {
    XmppStartIsReachable();
    StepsAreReachable(Early(SETTING_UP, STARTED, STARTED), OuterWork, 1, Early(SERVING, STARTED, STARTED));
  }

  /** Held up between the test and the write. */
  const LATE := STARTED.(worker := WriteRunning)

  const ASKED := SERVING.(state := StopRequested, control := Join)

  lemma LateIsReachable()
    ensures Reachable(Early(SERVING, LATE, STARTED))
  {
    ServingIsReachable();
    StepsAreReachable(Early(SERVING, STARTED, STARTED), TcpWork, 2, Early(SERVING, LATE, STARTED));
  }

  const WRITING := Early(SERVING.(control := StopWaiting), LATE, STARTED)

  lemma WritingIsReachable()
    ensures Reachable(WRITING)
  {
    hide OuterStep, XmppStep, WorkStep;
    LateIsReachable();
    StepsAreReachable(Early(SERVING, LATE, STARTED), OwnerMove(Stop), 3, WRITING);
  }

  lemma AskedIsReachable()
    ensures Reachable(Early(ASKED, LATE, STARTED))
  {
    hide OuterStep, XmppStep, WorkStep;
    WritingIsReachable();
    StepsAreReachable(WRITING, OwnerMove(Stop), 2, Early(ASKED, LATE, STARTED));
  }

  const STOPPING := Early(ASKED.(worker := Cleanup), LATE.(control := StopFirst), STARTED)

  const MISSED := Early(ASKED.(worker := Cleanup), LATE.(state := StopRequested, control := Join), STARTED)

  lemma StoppingIsReachable()
    ensures Reachable(STOPPING)
  {
    hide XmppStep;
    AskedIsReachable();
    StepsAreReachable(Early(ASKED, LATE, STARTED), OuterWork, 2, STOPPING);
  }

  lemma MissedIsReachable()
    ensures Reachable(MISSED)
  {
    hide XmppStep;
    StoppingIsReachable();
    StepsAreReachable(STOPPING, OuterWork, 3, MISSED);
  }

  /** The push server starts, the TCP worker is held up between its test and its write, and the stop request of the
      push server reaches it there: from then on the stop returns under no fair schedule. */
  lemma LosingSystemRun() returns (moves: seq<SystemMove>)
    ensures var s := SystemRun(WRITTEN, IDLE_SYSTEM, moves);
            && Lost(s.tcp) && s.outer.control == Join && s.outer.state == StopRequested && !s.aborted
            && forall schedule: nat -> SystemMove | Fair(schedule, Threads(), FOUR) ::
                 !SystemReturns(WRITTEN, s, schedule)
  {
    MissedIsReachable();
    var s := MISSED;
    moves :| SystemRun(WRITTEN, IDLE_SYSTEM, moves) == s;
    RunFromIdle(WRITTEN, moves);
    forall schedule: nat -> SystemMove | Fair(schedule, Threads(), FOUR) ensures !SystemReturns(WRITTEN, s, schedule) {
      SpoiltNeverReturns(WRITTEN, s, schedule);
    }
  }
}
