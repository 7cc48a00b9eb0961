/** The start/stop protocol shared by the TCP server, the XMPP client and the push server: one controlling
    thread and one worker thread that interleave single reads and writes of a shared state. */
module Lifecycle {
  import opened Fairness

  datatype State = NotRunning | Starting | Running | StopRequested | WaitingForJoin

  /** Where the controlling thread is: between calls, in start(), or in stop(). */
  datatype Control =
    | Idle
    | StartAssert | StartWrite | StartThread
    | StopFirst | StopSecond | StopThird   // the three tests of the outer if
    | StopSkip                             // the branch for an object that is not running
    | StopWaiting | StopWrite              // the inner if and the request
    | Join | JoinedWrite | JoinedClear
    | ControlFailed

  /** Where the worker thread is. */
  datatype Worker =
    | NoThread
    | AssertStarting | AssertStop          // the two reads of the assertion
    | TestStarting | WriteRunning
    | Setup | Loop | Cleanup | WriteWaiting
    | Finished
    | WorkerFailed

  /** `started` is what the owner of the object knows: start returned, and no stop has since. */
  datatype Object = Object(state: State, thread: bool, control: Control, worker: Worker, started: bool)

  datatype Call = Start | Stop

  /** One step of one thread; between calls the controlling thread makes the given one. */
  datatype Move = Control(call: Call) | Work

  datatype Actor = Controller | TheWorker

  /** The source tests and writes separately and asks for STARTING first; the other variants show why the
      order matters and what an atomic test would buy. */
  datatype Variant = Variant(atomic: bool, startingFirst: bool)

  const AS_WRITTEN := Variant(false, true)
  const ATOMIC := Variant(true, true)

  const FRESH := Object(NotRunning, false, Idle, NoThread, false)

  // ---------- Steps ----------

  function ControlStep(v: Variant, o: Object, call: Call): Object {
    match o.control
    case Idle =>
      if call.Stop? then o.(control := StopFirst)
      else if o.started then o
      else o.(control := StartAssert)
    case StartAssert => o.(control := if o.state == NotRunning then StartWrite else ControlFailed)
    case StartWrite => o.(state := Starting, control := StartThread)
    case StartThread => o.(thread := true, worker := AssertStarting, started := true, control := Idle)
    case StopFirst =>
      var first := if v.startingFirst then Starting else Running;
      o.(control := if o.state == first then StopWaiting else StopSecond)
    case StopSecond =>
      var second := if v.startingFirst then Running else Starting;
      o.(control := if o.state == second then StopWaiting else StopThird)
    case StopThird => o.(control := if o.state == WaitingForJoin then StopWaiting else StopSkip)
    case StopSkip => o.(started := false, control := Idle)
    case StopWaiting => o.(control := if o.state != WaitingForJoin then StopWrite else Join)
    case StopWrite => o.(state := StopRequested, control := Join)
    case Join =>
      if !o.thread then o.(control := ControlFailed)
      else if o.worker == Finished then o.(control := JoinedWrite)
      else o
    case JoinedWrite => o.(state := NotRunning, control := JoinedClear)
    case JoinedClear => o.(thread := false, worker := NoThread, started := false, control := Idle)
    case ControlFailed => o
  }

  function WorkStep(v: Variant, o: Object): Object {
    match o.worker
    case AssertStarting => o.(worker := if o.state == Starting then TestStarting else AssertStop)
    case AssertStop => o.(worker := if o.state == StopRequested then TestStarting else WorkerFailed)
    case TestStarting =>
      if o.state != Starting then o.(worker := Finished)
      else if v.atomic then o.(state := Running, worker := Setup)
      else o.(worker := WriteRunning)
    case WriteRunning => o.(state := Running, worker := Setup)
    case Setup => o.(worker := Loop)
    case Loop => o.(worker := if o.state == Running then Loop else Cleanup)
    case Cleanup => o.(worker := WriteWaiting)
    case WriteWaiting => o.(state := WaitingForJoin, worker := Finished)
    case NoThread => o
    case Finished => o
    case WorkerFailed => o
  }

  function Step(v: Variant, o: Object, move: Move): Object {
    match move
    case Control(call) => ControlStep(v, o, call)
    case Work => WorkStep(v, o)
  }

  /** Any interleaving of any calls; a move that cannot be made changes nothing. */
  function Run(v: Variant, o: Object, moves: seq<Move>): Object
    decreases |moves|
  {
    if moves == [] then o else Run(v, Step(v, o, moves[0]), moves[1..])
  }

  // ---------- The invariant ----------

  predicate Stopped(o: Object) {
    o.state == NotRunning && !o.thread && o.worker == NoThread && !o.started
  }

  /** Started, and no stop requested: the state follows the worker. */
  predicate Unasked(v: Variant, o: Object) {
    o.thread && o.started &&
    match o.worker
    case AssertStarting => o.state == Starting
    case TestStarting => o.state == Starting
    case WriteRunning => o.state == Starting && !v.atomic
    case Setup => o.state == Running
    case Loop => o.state == Running
    case _ => false
  }

  /** A stop was requested: the state says so until the worker is done, unless the worker overwrote it. */
  predicate Asked(v: Variant, o: Object) {
    o.thread && o.started &&
    match o.worker
    case AssertStarting => o.state == StopRequested
    case AssertStop => o.state == StopRequested
    case TestStarting => o.state == StopRequested
    case WriteRunning => o.state == StopRequested && !v.atomic
    case Setup => o.state == StopRequested || (o.state == Running && !v.atomic)
    case Loop => o.state == StopRequested || (o.state == Running && !v.atomic)
    case Cleanup => o.state == StopRequested
    case WriteWaiting => o.state == StopRequested
    case Finished => o.state == StopRequested || o.state == WaitingForJoin
    case _ => false
  }

  predicate Inv(v: Variant, o: Object) {
    match o.control
    case Idle => if o.started then Unasked(v, o) else Stopped(o)
    case StartAssert => Stopped(o)
    case StartWrite => Stopped(o)
    case StartThread => o.state == Starting && !o.thread && o.worker == NoThread && !o.started
    case StopFirst => if o.started then Unasked(v, o) else Stopped(o)
    case StopSecond => if o.started then Unasked(v, o) && o.state == Running else Stopped(o)
    case StopThird => Stopped(o)
    case StopSkip => Stopped(o)
    case StopWaiting => Unasked(v, o)
    case StopWrite => Unasked(v, o)
    case Join => Asked(v, o)
    case JoinedWrite => o.thread && o.started && o.worker == Finished && o.state in {StopRequested, WaitingForJoin}
    case JoinedClear => o.thread && o.started && o.worker == Finished && o.state == NotRunning
    case ControlFailed => false
  }

  lemma StepKeepsInv(v: Variant, o: Object, move: Move)
    requires v.startingFirst && Inv(v, o)
    ensures Inv(v, Step(v, o, move))
  {
    match move
    case Control(call) =>
    case Work =>
  }

  lemma {:induction false} RunKeepsInv(v: Variant, o: Object, moves: seq<Move>)
    requires v.startingFirst && Inv(v, o)
    ensures Inv(v, Run(v, o, moves))
    decreases |moves|
  {
    if moves != [] {
      StepKeepsInv(v, o, moves[0]);
      RunKeepsInv(v, Step(v, o, moves[0]), moves[1..]);
    }
  }

  /** When the assertions fail: that of start in any state but NOT_RUNNING, and that of the worker, which reads the
      state twice, in any but STARTING and then in any but STOP_REQUESTED. */
  lemma AssertionsTest(v: Variant, o: Object, call: Call)
    ensures o.control == StartAssert ==> (ControlStep(v, o, call).control == ControlFailed <==> o.state != NotRunning)
    ensures o.control == Join && !o.thread ==> ControlStep(v, o, call).control == ControlFailed
    ensures o.worker == AssertStop ==> (WorkStep(v, o).worker == WorkerFailed <==> o.state != StopRequested)
    ensures o.worker == AssertStarting ==>
              (WorkStep(v, WorkStep(v, o)).worker == WorkerFailed <==> o.state !in {Starting, StopRequested})
    ensures o.worker == AssertStarting && o.state == Starting ==> WorkStep(v, o) == o.(worker := TestStarting)
  {
  }

  /** In every reachable state of every interleaving: no assertion fails; stop on a started object is never in
      the branch for one that is not running; and between calls an object that is not started is NOT_RUNNING
      without a thread, which is what the assertions of start and of the destructor ask for. Whether its worker can
      do its work a second time is another matter, for which see NestedLifecycle. */
  lemma Safe(v: Variant, moves: seq<Move>)
    requires v.startingFirst
    ensures var o := Run(v, FRESH, moves);
            && o.control != ControlFailed && o.worker != WorkerFailed
            && (o.control == StopSkip ==> !o.started)
            && (o.control == Idle && !o.started ==> Stopped(o))
  {
    RunKeepsInv(v, FRESH, moves);
  }

  /** No worker reaches WAITING_FOR_JOIN before a stop was requested: the tests for it in stop never hold. */
  lemma NeverWaitingUnasked(v: Variant, moves: seq<Move>)
    requires v.startingFirst
    ensures var o := Run(v, FRESH, moves);
            o.state == WaitingForJoin ==> o.control in {Join, JoinedWrite}
  {
    RunKeepsInv(v, FRESH, moves);
  }

  // ---------- What the worker leaves behind ----------

  lemma {:induction false} RunAppend(v: Variant, o: Object, moves: seq<Move>, move: Move)
    ensures Run(v, o, moves + [move]) == Step(v, Run(v, o, moves), move)
    decreases |moves|
  {
    if moves == [] {
      assert Run(v, Step(v, o, move), [move][1..]) == Step(v, o, move);
    } else {
      RunAppend(v, Step(v, o, moves[0]), moves[1..], move);
      assert (moves + [move])[1..] == moves[1..] + [move];
    }
  }

  /** Whether the worker of the last start got past its early return: it found STARTING. */
  predicate FoundStarting(v: Variant, moves: seq<Move>)
    decreases |moves|
  {
    moves != [] &&
    var before, move := moves[..|moves| - 1], moves[|moves| - 1];
    var o := Run(v, FRESH, before);
    if move.Work? && o.worker == TestStarting && o.state == Starting then true
    else if move.Control? && o.control == StartThread then false
    else FoundStarting(v, before)
  }

  predicate FollowsFinding(o: Object, found: bool) {
    && (o.worker in {AssertStarting, AssertStop, TestStarting} ==> !found)
    && (o.worker in {WriteRunning, Setup, Loop, Cleanup, WriteWaiting} ==> found)
    && (o.worker == Finished && o.control in {Join, JoinedWrite} ==>
          o.state == if found then WaitingForJoin else StopRequested)
  }

  lemma FindingNext(v: Variant, o: Object, found: bool, move: Move)
    requires v.startingFirst && Inv(v, o) && FollowsFinding(o, found)
    ensures FollowsFinding(Step(v, o, move),
                          if move.Work? && o.worker == TestStarting && o.state == Starting then true
                          else if move.Control? && o.control == StartThread then false
                          else found)
  {
    match move
    case Control(call) =>
    case Work =>
  }

  /** After every run: from the end of the worker until stop has written the state after the join, the state is
      WAITING_FOR_JOIN if the worker got past its early return in this start, and STOP_REQUESTED if it did not. */
  lemma {:induction false} LeavesWaiting(v: Variant, moves: seq<Move>)
    requires v.startingFirst
    ensures var o := Run(v, FRESH, moves);
            && (o.worker == Finished && o.control != JoinedClear ==>
                  && (o.state == WaitingForJoin <==> FoundStarting(v, moves))
                  && (o.state == StopRequested <==> !FoundStarting(v, moves)))
            && (o.worker in {WriteRunning, Setup, Loop, Cleanup, WriteWaiting} ==> FoundStarting(v, moves))
    ensures FollowsFinding(Run(v, FRESH, moves), FoundStarting(v, moves))
    decreases |moves|
  {
    hide Step;
    if moves != [] {
      var before, move := moves[..|moves| - 1], moves[|moves| - 1];
      assert before + [move] == moves;
      LeavesWaiting(v, before);
      RunKeepsInv(v, FRESH, before);
      RunAppend(v, FRESH, before, move);
      FindingNext(v, Run(v, FRESH, before), FoundStarting(v, before), move);
    }
    RunKeepsInv(v, FRESH, moves);
    if Run(v, FRESH, moves).worker == Finished {
      FinishedIsJoined(v, Run(v, FRESH, moves));
    }
  }

  lemma FinishedIsJoined(v: Variant, o: Object)
    requires Inv(v, o) && o.worker == Finished
    ensures o.control in {Join, JoinedWrite, JoinedClear}
  {
  }

  // ---------- When stop returns ----------

  /** The request is lost: the worker will overwrite it, or has. */
  predicate Lost(o: Object) {
    o.control == Join && o.started && o.thread
    && (o.worker == WriteRunning || (o.state == Running && (o.worker == Setup || o.worker == Loop)))
  }

  /** A request is lost exactly when it is written between the worker's test and the worker's write. */
  lemma LostWhenWritten(v: Variant, o: Object, call: Call)
    requires v.startingFirst && Inv(v, o) && o.control == StopWrite
    ensures Lost(Step(v, o, Control(call))) <==> o.worker == WriteRunning
  {
  }

  predicate InStop(o: Object) {
    o.control !in {Idle, StartAssert, StartWrite, StartThread, ControlFailed}
  }

  function ControlLeft(o: Object): nat {
    match o.control
    case Idle => if o.started then 8 else 0
    case StopFirst => 7
    case StopSecond => 6
    case StopThird => 5
    case StopSkip => 4
    case StopWaiting => 5
    case StopWrite => 4
    case Join => 3
    case JoinedWrite => 2
    case JoinedClear => 1
    case _ => 0
  }

  function WorkLeft(worker: Worker): nat {
    match worker
    case AssertStarting => 8
    case AssertStop => 7
    case TestStarting => 6
    case WriteRunning => 5
    case Setup => 4
    case Loop => 3
    case Cleanup => 2
    case WriteWaiting => 1
    case _ => 0
  }

  function Rank(o: Object): (r: nat)
    ensures r <= 89
  {
    if ControlLeft(o) == 0 then 0
    else 10 * ControlLeft(o) + if o.control == Join then WorkLeft(o.worker) else 9
  }

  function Helpful(o: Object): Actor {
    if o.control == Join && o.worker != Finished then TheWorker else Controller
  }

  /** While a stop is under way and its request is not lost, the helpful thread comes closer to its end or the
      request gets lost, and the other thread does not get in the way. */
  lemma StopAdvances(v: Variant, o: Object, move: Move)
    requires v.startingFirst && Inv(v, o) && InStop(o) && !Lost(o)
    ensures var r := Step(v, o, move);
            && Inv(v, r)
            && (Lost(r)
                || ((InStop(r) || Returned(r))
                    && (Rank(r) < Rank(o)
                        || (ActorOf(move) != Helpful(o) && Rank(r) == Rank(o) && Helpful(r) == Helpful(o)))))
  {
  }

  function ActorOf(move: Move): Actor {
    if move.Work? then TheWorker else Controller
  }

  function Stepper(v: Variant): (Object, Move) -> Object {
    (o, move) => Step(v, o, move)
  }

  const BOTH := {Controller, TheWorker}

  function Actors(): Move -> Actor {
    move => ActorOf(move)
  }

  predicate Returned(o: Object) {
    o.control == Idle && Stopped(o)
  }

  function IsReturned(): Object -> bool {
    o => Returned(o)
  }

  function IsLost(): Object -> bool {
    o => Lost(o)
  }

  /** Under the schedule, some time or other the stop has returned. */
  ghost predicate Returns(v: Variant, o: Object, schedule: nat -> Move) {
    Ends(Stepper(v), o, schedule, IsReturned())
  }

  /** Under the schedule, the request gets lost, and stop has not returned before that. */
  ghost predicate Loses(v: Variant, o: Object, schedule: nat -> Move) {
    FailsFirst(Stepper(v), o, schedule, IsReturned(), IsLost())
  }

  function Stopping(v: Variant): Progress<Object, Move, Actor> {
    Progress(o => Inv(v, o) && InStop(o) && !Lost(o), o => Returned(o) || Lost(o), o => Rank(o), o => Helpful(o))
  }

  lemma StoppingIsSound(v: Variant)
    requires v.startingFirst
    ensures Sound(Stepper(v), Actors(), BOTH, Stopping(v))
    ensures Irreparable(Stepper(v), o => Inv(v, o), IsReturned(), IsLost())
  {
    hide Inv, InStop, Rank, Step;
    var p := Stopping(v);
    forall o, move | p.good(o) && !p.goal(o) ensures Advances(Stepper(v), Actors(), p, o, move) {
      StopAdvances(v, o, move);
    }
    forall o, move | Inv(v, o)
      ensures Inv(v, Step(v, o, move)) && (Lost(o) ==> Lost(Step(v, o, move)) && !Returned(o))
    {
      StepKeepsInv(v, o, move);
      LostStays(v, o, move);
    }
  }

  /** A lost request stays lost, whoever moves. */
  lemma LostStays(v: Variant, o: Object, move: Move)
    ensures Lost(o) ==> Lost(Step(v, o, move)) && !Returned(o)
  {
  }

  /** From any point of a stop, as written: it returns under a fair schedule if and only if its request does not
      get lost under that schedule before. */
  lemma ReturnsUnlessLost(o: Object, schedule: nat -> Move)
    requires Inv(AS_WRITTEN, o) && (InStop(o) || Lost(o)) && Fair(schedule, Actors(), BOTH)
    ensures Returns(AS_WRITTEN, o, schedule) <==> !Loses(AS_WRITTEN, o, schedule)
  {
    hide Inv, InStop, Lost, Returned;
    StoppingIsSound(AS_WRITTEN);
    EndsUnlessBad(Stepper(AS_WRITTEN), Actors(), BOTH, Stopping(AS_WRITTEN), r => Inv(AS_WRITTEN, r),
                  IsReturned(), IsLost(), o, schedule);
  }

  /** With an atomic test nothing can get lost: every stop returns under every fair schedule. */
  lemma AtomicStopReturns(o: Object, schedule: nat -> Move)
    requires Inv(ATOMIC, o) && InStop(o) && Fair(schedule, Actors(), BOTH)
    ensures Returns(ATOMIC, o, schedule)
  {
    hide Inv, InStop, Lost, Returned;
    NeverLost(o);
    StoppingIsSound(ATOMIC);
    Reaches(Stepper(ATOMIC), Actors(), BOTH, Stopping(ATOMIC), o, schedule);
    var n: nat :| Stopping(ATOMIC).goal(At(Stepper(ATOMIC), o, schedule, n));
    StaysBad(Stepper(ATOMIC), r => Inv(ATOMIC, r), IsReturned(), IsLost(), o, schedule, n, n);
    NeverLost(At(Stepper(ATOMIC), o, schedule, n));
    assert IsReturned()(At(Stepper(ATOMIC), o, schedule, n));
  }

  lemma NeverLost(o: Object)
    requires Inv(ATOMIC, o)
    ensures !Lost(o)
  {
  }

  // ---------- Which stops are at risk ----------

  /** The request is lost, or is still to be written while the worker has not yet written RUNNING. */
  predicate AtRisk(o: Object) {
    Lost(o) || (o.control in {StopFirst, StopWaiting, StopWrite} && o.state == Starting)
  }

  lemma SafeStaysSafe(o: Object, move: Move)
    requires Inv(AS_WRITTEN, o) && InStop(o) && !AtRisk(o)
    ensures var r := Step(AS_WRITTEN, o, move); Inv(AS_WRITTEN, r) && (Returned(r) || (InStop(r) && !AtRisk(r)))
  {
  }

  lemma {:induction false} SafeNeverLoses(o: Object, schedule: nat -> Move, n: nat)
    requires Inv(AS_WRITTEN, o) && InStop(o) && !AtRisk(o)
    requires !EndedBefore(Stepper(AS_WRITTEN), o, schedule, IsReturned(), n)
    ensures var r := At(Stepper(AS_WRITTEN), o, schedule, n);
            Inv(AS_WRITTEN, r) && (Returned(r) || (InStop(r) && !AtRisk(r)))
    decreases n
  {
    hide Inv, InStop, AtRisk, Returned, Step;
    if n > 0 {
      var r := At(Stepper(AS_WRITTEN), o, schedule, n - 1);
      assert !EndedBefore(Stepper(AS_WRITTEN), o, schedule, IsReturned(), n - 1);
      SafeNeverLoses(o, schedule, n - 1);
      AtNext(Stepper(AS_WRITTEN), o, schedule, n - 1);
      assert !IsReturned()(r);
      SafeStaysSafe(r, schedule(n - 1));
    }
  }

  function TakingTurns(): nat -> Move {
    n => if n % 2 == 0 then Work else Control(Stop)
  }

  lemma TurnsAreFair()
    ensures Fair(TakingTurns(), Actors(), BOTH)
  {
    forall a, n: nat | a in BOTH ensures Moves(TakingTurns(), Actors(), a, n) {
      assert Actors()(TakingTurns()(2 * n)) == TheWorker;
      assert Actors()(TakingTurns()(2 * n + 1)) == Controller;
    }
  }

  /** The worker goes up to its write first, then stop writes its request. */
  function LosingMove(o: Object): Move {
    if o.worker == WriteRunning then Control(Stop) else Work
  }

  lemma RiskRemains(o: Object)
    requires Inv(AS_WRITTEN, o) && AtRisk(o) && !Lost(o)
    ensures var r := Step(AS_WRITTEN, o, LosingMove(o));
            && Inv(AS_WRITTEN, r) && AtRisk(r) && InStop(r) && !Returned(o)
            && (Rank(r) < Rank(o)
                || (Rank(r) == Rank(o) && r.control == o.control && WorkLeft(r.worker) < WorkLeft(o.worker)))
  {
  }

  lemma {:induction false} RiskLoses(o: Object) returns (schedule: nat -> Move)
    requires Inv(AS_WRITTEN, o) && AtRisk(o)
    ensures Fair(schedule, Actors(), BOTH) && !Returns(AS_WRITTEN, o, schedule)
    decreases Rank(o), WorkLeft(o.worker)
  {
    hide Inv, AtRisk, Lost, Returned, Step, Rank, WorkLeft;
    if Lost(o) {
      TurnsAreFair();
      schedule := TakingTurns();
      assert Loses(AS_WRITTEN, o, schedule) by {
        assert IsLost()(At(Stepper(AS_WRITTEN), o, schedule, 0));
      }
      ReturnsUnlessLost(o, schedule);
    } else {
      RiskRemains(o);
      var r := Step(AS_WRITTEN, o, LosingMove(o));
      var rest := RiskLoses(r);
      AfterIsFair(LosingMove(o), rest, Actors(), BOTH);
      schedule := After(LosingMove(o), rest);
      forall n: nat ensures !Returned(At(Stepper(AS_WRITTEN), o, schedule, n)) {
        if n > 0 {
          SameMoves(Stepper(AS_WRITTEN), r, Later(schedule), rest, n - 1);
          assert !IsReturned()(At(Stepper(AS_WRITTEN), r, rest, n - 1));
        }
      }
    }
  }

  /** As written, from any point of a stop: it returns under every fair schedule if and only if it is not at
      risk; so a call returns under every fair schedule if and only if it does not find STARTING. */
  lemma ReturnsUnlessAtRisk(o: Object)
    requires Inv(AS_WRITTEN, o) && InStop(o)
    ensures !AtRisk(o)
            <==> forall schedule: nat -> Move | Fair(schedule, Actors(), BOTH) :: Returns(AS_WRITTEN, o, schedule)
    ensures o.control == StopFirst ==> (AtRisk(o) <==> o.state == Starting)
    ensures o.control == Join ==> (AtRisk(o) <==> Lost(o))
  {
    if AtRisk(o) {
      var schedule := RiskLoses(o);
    } else {
      forall schedule: nat -> Move | Fair(schedule, Actors(), BOTH) ensures Returns(AS_WRITTEN, o, schedule) {
        ReturnsUnlessLost(o, schedule);
        forall n: nat | !EndedBefore(Stepper(AS_WRITTEN), o, schedule, IsReturned(), n)
          ensures !IsLost()(At(Stepper(AS_WRITTEN), o, schedule, n))
        {
          SafeNeverLoses(o, schedule, n);
        }
      }
    }
  }

  /** The states a run passes through. */
  predicate Trace(v: Variant, states: seq<Object>, moves: seq<Move>) {
    |states| == |moves| + 1 && forall i | 0 <= i < |moves| :: states[i + 1] == Step(v, states[i], moves[i])
  }

  lemma {:induction false} RunAlong(v: Variant, states: seq<Object>, moves: seq<Move>)
    requires Trace(v, states, moves)
    ensures Run(v, states[0], moves) == states[|moves|]
    decreases |moves|
  {
    if moves != [] {
      forall i | 0 <= i < |moves[1..]| ensures states[1..][i + 1] == Step(v, states[1..][i], moves[1..][i]) {
        assert states[i + 2] == Step(v, states[i + 1], moves[i + 1]);
      }
      RunAlong(v, states[1..], moves[1..]);
    }
  }

  /** And there is an interleaving of one start and one stop that loses the request. */
  lemma LosingRun()
    ensures exists moves: seq<Move> :: Lost(Run(AS_WRITTEN, FRESH, moves))
  {
    var c, s := Control(Start), Control(Stop);
    var states := [
      FRESH,
      Object(NotRunning, false, StartAssert, NoThread, false),
      Object(NotRunning, false, StartWrite, NoThread, false),
      Object(Starting, false, StartThread, NoThread, false),
      Object(Starting, true, Idle, AssertStarting, true),
      Object(Starting, true, Idle, TestStarting, true),
      Object(Starting, true, Idle, WriteRunning, true),
      Object(Starting, true, StopFirst, WriteRunning, true),
      Object(Starting, true, StopWaiting, WriteRunning, true),
      Object(Starting, true, StopWrite, WriteRunning, true),
      Object(StopRequested, true, Join, WriteRunning, true)];
    RunAlong(AS_WRITTEN, states, [c, c, c, c, Work, Work, s, c, c, c]);
  }

  /** Testing RUNNING before STARTING would miss a worker that starts to run in between: stop would return
      with the object still running. */
  lemma OrderMatters()
    ensures exists moves: seq<Move> ::
              var o := Run(Variant(true, false), FRESH, moves);
              o.control == Idle && !o.started && o.state == Running && o.thread
  {
    var c, s := Control(Start), Control(Stop);
    var states := [
      FRESH,
      Object(NotRunning, false, StartAssert, NoThread, false),
      Object(NotRunning, false, StartWrite, NoThread, false),
      Object(Starting, false, StartThread, NoThread, false),
      Object(Starting, true, Idle, AssertStarting, true),
      Object(Starting, true, Idle, TestStarting, true),
      Object(Starting, true, StopFirst, TestStarting, true),
      Object(Starting, true, StopSecond, TestStarting, true),
      Object(Running, true, StopSecond, Setup, true),
      Object(Running, true, StopThird, Setup, true),
      Object(Running, true, StopSkip, Setup, true),
      Object(Running, true, Idle, Setup, false)];
    RunAlong(Variant(true, false), states, [c, c, c, c, Work, s, c, Work, c, c, c]);
  }
}
