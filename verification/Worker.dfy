/** The worker thread of primitives/worker.cpp as a state machine: any number of controller
    threads call startWorking, stopWorking and the destructor in any interleaving with the thread
    body. One step is one access to the shared state m_state, m_work or the mutex x_work. */
module Worker {

  datatype State = Starting | Started | Stopping | Stopped | Killing

  /** Where the thread body stands. Republish holds the value its exchange swapped out. */
  datatype Body =
    | NoThread
    | LoopTest                // while (m_state != Killing)
    | Begin                   // compare_exchange(Starting, Started)
    | Running                 // trun()
    | Publish                 // ex = m_state.exchange(Stopped)
    | Republish(ex: State)    // if (ex == Killing || ex == Starting) m_state.exchange(ex)
    | WaitStopped             // while (m_state == Stopped) sleep
    | Exited

  /** Where a controller stands; every point between Enter and the return holds the mutex. */
  datatype Control =
    | Idle
    | StartEnter | StartCas | StartSet | StartSpawn | StartAssign | StartWait
    | StopEnter | StopCas | StopWait
    | KillEnter | KillSet | KillJoin | KillReset

  type Tid = nat
  datatype Owner = Free | HeldBy(t: Tid)

  /** quiet records that a stopWorking has returned and no startWorking has asked for work since. */
  datatype Machine = Machine(state: State, work: bool, owner: Owner, body: Body, control: map<Tid, Control>, quiet: bool)

  datatype Call = Start | Stop | Kill
  datatype Action = Thread(trunReturns: bool) | Controller(t: Tid, call: Call)

  ghost predicate Init(m: Machine) {
    && m.state == Starting && !m.work && m.owner == Free && m.body == NoThread && !m.quiet
    && forall t :: t in m.control ==> m.control[t] == Idle
  }

  function ThreadStep(m: Machine, trunReturns: bool): Machine {
    match m.body
    case NoThread => m
    case LoopTest => m.(body := if m.state != Killing then Begin else Exited)
    case Begin => m.(body := Running, state := if m.state == Starting then Started else m.state)
    case Running => if trunReturns then m.(body := Publish) else m
    case Publish => m.(body := Republish(m.state), state := Stopped)
    case Republish(ex) => m.(body := WaitStopped, state := if ex == Killing || ex == Starting then ex else m.state)
    case WaitStopped => if m.state == Stopped then m else m.(body := LoopTest)
    case Exited => m
  }

  function Move(m: Machine, t: Tid, c: Control): Machine {
    m.(control := m.control[t := c])
  }

  function Lock(m: Machine, t: Tid, c: Control): Machine {
    Move(m, t, c).(owner := HeldBy(t))
  }

  function Return(m: Machine, t: Tid): Machine {
    Move(m, t, Idle).(owner := Free)
  }

  /** startWorking; a blocked controller stays where it is. */
  function StartStep(m: Machine, t: Tid): Machine
    requires t in m.control
  {
    match m.control[t]
    case StartEnter => if m.owner != Free then m else Lock(m, t, if m.work then StartCas else StartSet)
    case StartCas => Move(m, t, StartWait).(state := if m.state == Stopped then Starting else m.state, quiet := false)
    case StartSet => Move(m, t, StartSpawn).(state := Starting, quiet := false)
    case StartSpawn => Move(m, t, StartAssign).(body := LoopTest)
    case StartAssign => Move(m, t, StartWait).(work := true)
    case StartWait => if m.state == Starting then m else Return(m, t)
    case _ => m
  }

  /** stopWorking */
  function StopStep(m: Machine, t: Tid): Machine
    requires t in m.control
  {
    match m.control[t]
    case StopEnter =>
      if m.owner != Free then m
      else if m.work then Lock(m, t, StopCas) else Move(m, t, Idle).(quiet := true)
    case StopCas => Move(m, t, StopWait).(state := if m.state == Started then Stopping else m.state)
    case StopWait => if m.state != Stopped then m else Return(m, t).(quiet := true)
    case _ => m
  }

  /** ~Worker */
  function KillStep(m: Machine, t: Tid): Machine
    requires t in m.control
  {
    match m.control[t]
    case KillEnter =>
      if m.owner != Free then m
      else if m.work then Lock(m, t, KillSet) else Move(m, t, Idle)
    case KillSet => Move(m, t, KillJoin).(state := Killing)
    case KillJoin => if m.body != Exited then m else Move(m, t, KillReset)
    case KillReset => Return(m, t).(work := false)
    case _ => m
  }

  function CallOf(c: Control): Call {
    match c
    case StartEnter | StartCas | StartSet | StartSpawn | StartAssign | StartWait => Start
    case StopEnter | StopCas | StopWait => Stop
    case _ => Kill
  }

  function ControllerStep(m: Machine, t: Tid, call: Call): Machine
    requires t in m.control
  {
    if m.control[t] == Idle then
      Move(m, t, match call case Start => StartEnter case Stop => StopEnter case Kill => KillEnter)
    else
      match CallOf(m.control[t])
      case Start => StartStep(m, t)
      case Stop => StopStep(m, t)
      case Kill => KillStep(m, t)
  }

  function Step(m: Machine, a: Action): Machine {
    match a
    case Thread(trunReturns) => ThreadStep(m, trunReturns)
    case Controller(t, call) => if t in m.control then ControllerStep(m, t, call) else m
  }

  /** The machine after a run of actions. */
  function Run(m: Machine, actions: seq<Action>): Machine {
    if actions == [] then m else Step(Run(m, actions[..|actions| - 1]), actions[|actions| - 1])
  }

  // ----- The invariant -----

  predicate InCall(c: Control) {
    c != Idle && c != StartEnter && c != StopEnter && c != KillEnter
  }

  /** The mutex is held by exactly the controller inside a call. */
  ghost predicate Exclusive(owner: Owner, control: map<Tid, Control>) {
    && (owner.HeldBy? ==> owner.t in control && InCall(control[owner.t]))
    && forall t :: t in control && InCall(control[t]) ==> owner == HeldBy(t)
  }

  /** The point of the call that holds the mutex, Idle when nobody does. */
  function Holder(owner: Owner, control: map<Tid, Control>): Control {
    if owner.HeldBy? && owner.t in control then control[owner.t] else Idle
  }

  predicate Alive(b: Body) {
    b != NoThread && b != Exited
  }

  /** The thread has published Stopped and not been asked to go on. */
  predicate Parked(b: Body) {
    b == WaitStopped || b == Republish(Started) || b == Republish(Stopping)
  }

  predicate Busy(b: Body) {
    b == Running || b == Publish
  }

  /** What the holder of the mutex, m_state and the thread can be at the same time. */
  predicate Agrees(holder: Control, state: State, work: bool, body: Body) {
    && (work <==> (Alive(body) && holder != StartAssign) || (body == Exited && (holder == KillJoin || holder == KillReset)))
    && match holder
       case Idle =>
         if work then (state == Started && Busy(body)) || (state == Stopped && Parked(body)) else !Alive(body)
       case StartCas => work && ((state == Started && Busy(body)) || (state == Stopped && Parked(body)))
       case StopCas => work && ((state == Started && Busy(body)) || (state == Stopped && Parked(body)))
       case KillSet => work && ((state == Started && Busy(body)) || (state == Stopped && Parked(body)))
       case StartSet => !work && !Alive(body)
       case StartSpawn => !work && !Alive(body) && state == Starting
       case StartAssign => !work && StartingOrLater(state, body)
       case StartWait => work && StartingOrLater(state, body)
       case StopWait => work && ((state == Stopping && Busy(body)) || (state == Stopped && Parked(body)))
       case KillJoin => work && KillPending(state, body)
       case KillReset => work && state == Killing && body == Exited
       case _ => false
  }

  /** A requested start: not yet seen, or running, or already over. */
  predicate StartingOrLater(state: State, body: Body) {
    || (state == Starting && (body == LoopTest || body == Begin || Parked(body)))
    || (state == Started && Busy(body))
    || (state == Stopped && Parked(body))
  }

  /** The request to die is in m_state, or in the thread's hands to be put back. */
  predicate KillPending(state: State, body: Body) {
    || (state == Killing && (Busy(body) || Parked(body) || body == LoopTest || body == Exited))
    || (state == Stopped && body == Republish(Killing))
  }

  /** After a stop returned the thread is parked, told to die, or gone. */
  predicate Quiet(state: State, body: Body) {
    || !Alive(body)
    || (state == Stopped && Parked(body))
    || (state == Killing && (Parked(body) || body == LoopTest))
  }

  predicate StartRequested(holder: Control) {
    holder == StartSpawn || holder == StartAssign || holder == StartWait
  }

  ghost predicate Inv(m: Machine) {
    && Exclusive(m.owner, m.control)
    && Agrees(Holder(m.owner, m.control), m.state, m.work, m.body)
    && (m.quiet ==> Quiet(m.state, m.body) && !StartRequested(Holder(m.owner, m.control)))
  }

  lemma {:induction false} ThreadKeepsInv(m: Machine, trunReturns: bool)
    requires Inv(m)
    ensures Inv(ThreadStep(m, trunReturns))
  {
    hide Exclusive, Holder;
  }

  lemma {:induction false} MoveKeepsMutex(owner: Owner, control: map<Tid, Control>, t: Tid, c: Control)
    requires Exclusive(owner, control) && t in control && InCall(control[t]) == InCall(c)
    ensures Exclusive(owner, control[t := c])
    ensures Holder(owner, control[t := c]) == if InCall(c) then c else Holder(owner, control)
    ensures InCall(c) ==> Holder(owner, control) == control[t]
  {
  }

  lemma {:induction false} LockKeepsMutex(control: map<Tid, Control>, t: Tid, c: Control)
    requires Exclusive(Free, control) && t in control && InCall(c)
    ensures Exclusive(HeldBy(t), control[t := c])
    ensures Holder(HeldBy(t), control[t := c]) == c && Holder(Free, control) == Idle
  {
  }

  lemma {:induction false} ReturnKeepsMutex(owner: Owner, control: map<Tid, Control>, t: Tid)
    requires Exclusive(owner, control) && t in control && InCall(control[t])
    ensures Exclusive(Free, control[t := Idle])
    ensures Holder(Free, control[t := Idle]) == Idle && Holder(owner, control) == control[t]
  {
  }

  lemma FreeIsIdle(control: map<Tid, Control>)
    ensures Holder(Free, control) == Idle
  {
  }

  /** A controller changes only its own point, and the mutex only when it enters or leaves a call. */
  ghost predicate Shape(m: Machine, n: Machine, t: Tid)
    requires t in m.control
  {
    && t in n.control && n.control == m.control[t := n.control[t]]
    && (n.owner == m.owner ==> InCall(n.control[t]) == InCall(m.control[t]))
    && (n.owner != m.owner && n.owner == Free ==> InCall(m.control[t]) && n.control[t] == Idle && !InCall(Idle))
    && (n.owner != m.owner && n.owner != Free ==>
          m.owner == Free && n.owner == HeldBy(t) && !InCall(m.control[t]) && InCall(n.control[t]))
  }

  lemma StartShape(m: Machine, t: Tid)
    requires t in m.control && (InCall(m.control[t]) ==> m.owner == HeldBy(t))
    ensures Shape(m, StartStep(m, t), t)
  {
  }

  lemma StopShape(m: Machine, t: Tid)
    requires t in m.control && (InCall(m.control[t]) ==> m.owner == HeldBy(t))
    ensures Shape(m, StopStep(m, t), t)
  {
  }

  lemma KillShape(m: Machine, t: Tid)
    requires t in m.control && (InCall(m.control[t]) ==> m.owner == HeldBy(t))
    ensures Shape(m, KillStep(m, t), t)
  {
  }

  lemma {:induction false} ControllerKeepsMutex(m: Machine, t: Tid, call: Call)
    requires Exclusive(m.owner, m.control) && t in m.control
    ensures var n := ControllerStep(m, t, call);
            && t in n.control && Exclusive(n.owner, n.control)
            && Holder(n.owner, n.control)
               == if InCall(n.control[t]) then n.control[t]
                  else if InCall(m.control[t]) then Idle else Holder(m.owner, m.control)
    ensures InCall(m.control[t]) ==> Holder(m.owner, m.control) == m.control[t]
    ensures m.owner == Free ==> Holder(m.owner, m.control) == Idle
  {
    StartShape(m, t);
    StopShape(m, t);
    KillShape(m, t);
    assert Shape(m, ControllerStep(m, t, call), t) by { hide StartStep, StopStep, KillStep; }
    hide Exclusive, Holder, InCall, ControllerStep;
    var n := ControllerStep(m, t, call);
    if InCall(m.control[t]) { MoveKeepsMutex(m.owner, m.control, t, m.control[t]); }
    if n.owner == m.owner {
      MoveKeepsMutex(m.owner, m.control, t, n.control[t]);
    } else if n.owner == Free {
      ReturnKeepsMutex(m.owner, m.control, t);
    } else {
      LockKeepsMutex(m.control, t, n.control[t]);
    }
    if m.owner == Free { FreeIsIdle(m.control); }
  }

  lemma {:induction false} ControllerKeepsInv(m: Machine, t: Tid, call: Call)
    requires Inv(m) && t in m.control
    ensures Inv(ControllerStep(m, t, call))
  {
    hide Inv, ControllerStep;
    match CallOf(m.control[t])
    case Start => StartKeepsInv(m, t, call);
    case Stop => StopKeepsInv(m, t, call);
    case Kill => KillKeepsInv(m, t, call);
  }

  lemma {:induction false} StartKeepsInv(m: Machine, t: Tid, call: Call)
    requires Inv(m) && t in m.control && CallOf(m.control[t]) == Start
    ensures Inv(ControllerStep(m, t, call))
  {
    hide Exclusive, Holder, StopStep, KillStep;
    ControllerKeepsMutex(m, t, call);
  }

  lemma {:induction false} StopKeepsInv(m: Machine, t: Tid, call: Call)
    requires Inv(m) && t in m.control && CallOf(m.control[t]) == Stop
    ensures Inv(ControllerStep(m, t, call))
  {
    hide Exclusive, Holder, StartStep, KillStep;
    ControllerKeepsMutex(m, t, call);
  }

  /** Also a controller that is not in a call and starts one. */
  lemma {:induction false} KillKeepsInv(m: Machine, t: Tid, call: Call)
    requires Inv(m) && t in m.control && CallOf(m.control[t]) == Kill
    ensures Inv(ControllerStep(m, t, call))
  {
    hide Exclusive, Holder, StartStep, StopStep;
    ControllerKeepsMutex(m, t, call);
  }

  /** Every state of every run, whatever the interleaving, satisfies the invariant. */
  lemma {:induction false} RunKeepsInv(m: Machine, actions: seq<Action>)
    requires Init(m)
    ensures Inv(Run(m, actions))
  {
    if actions != [] {
      RunKeepsInv(m, actions[..|actions| - 1]);
      StepKeepsInv(Run(m, actions[..|actions| - 1]), actions[|actions| - 1]);
    }
  }

  lemma {:induction false} StepKeepsInv(m: Machine, a: Action)
    requires Inv(m)
    ensures Inv(Step(m, a))
  {
    match a
    case Thread(r) => ThreadKeepsInv(m, r);
    case Controller(t, call) => if t in m.control { ControllerKeepsInv(m, t, call); }
  }

  // ----- Safety of every run -----

  /** The exchange that publishes Stopped never swaps out a Starting: the thread's own test for it is dead. */
  lemma {:induction false} PublishNeverLosesStart(m: Machine, actions: seq<Action>)
    requires Init(m)
    ensures var n := Run(m, actions);
            (n.body == Publish ==> n.state != Starting) && n.body != Republish(Starting)
  {
    RunKeepsInv(m, actions);
  }

  /** While a destructor waits in join, its request is in m_state or about to be put back there,
      nobody else holds the mutex, and the thread cannot enter trun again. */
  lemma {:induction false} KillNeverLost(m: Machine, actions: seq<Action>, t: Tid, a: Action)
    requires Init(m)
    requires var n := Run(m, actions); t in n.control && n.control[t] == KillJoin
    ensures var n := Run(m, actions);
            && n.owner == HeldBy(t)
            && (n.state == Killing || n.body == Republish(Killing))
            && (n.body != Running ==> Step(n, a).body != Running)
  {
    RunKeepsInv(m, actions);
    var n := Run(m, actions);
    ControllerKeepsMutex(n, t, Kill);
    hide Exclusive, Holder, Run;
  }

  /** The step by which startWorking asks for work: its compare-exchange or its first assignment. */
  predicate AsksForWork(m: Machine, a: Action) {
    a.Controller? && a.t in m.control && (m.control[a.t] == StartCas || m.control[a.t] == StartSet)
  }

  predicate NoStart(m: Machine, actions: seq<Action>) {
    actions == [] ||
    (NoStart(m, actions[..|actions| - 1]) && !AsksForWork(Run(m, actions[..|actions| - 1]), actions[|actions| - 1]))
  }

  lemma {:induction false} StaysQuiet(m: Machine, actions: seq<Action>)
    requires Inv(m) && m.quiet && NoStart(m, actions)
    ensures Run(m, actions).quiet && Inv(Run(m, actions))
  {
    hide Inv;
    if actions != [] {
      var last := |actions| - 1;
      StaysQuiet(m, actions[..last]);
      StepKeepsInv(Run(m, actions[..last]), actions[last]);
    }
  }

  /** Once stopWorking has returned, trun is not running, and does not run until the next startWorking asks. */
  lemma {:induction false} StoppedMeansStopped(m: Machine, before: seq<Action>, t: Tid, call: Call, after: seq<Action>)
    requires Init(m)
    requires var n := Run(m, before);
             && t in n.control && (n.control[t] == StopWait || n.control[t] == StopEnter)
             && var returned := Step(n, Controller(t, call));
                returned.control[t] == Idle && NoStart(returned, after)
    ensures var end := Run(Step(Run(m, before), Controller(t, call)), after);
            end.body != Begin && end.body != Running && end.body != Publish
  {
    RunKeepsInv(m, before);
    var n := Run(m, before);
    StepKeepsInv(n, Controller(t, call));
    StaysQuiet(Step(n, Controller(t, call)), after);
  }

  /** What trun sees of the outside, through shouldStop. */
  predicate ShouldStop(m: Machine) {
    m.state == Stopping || m.state == Stopped
  }

  /** A running trun is told to stop if and only if a stopWorking is waiting; a waiting destructor does not tell it. */
  lemma {:induction false} StopIsSeenKillIsNot(m: Machine, actions: seq<Action>)
    requires Init(m)
    requires Run(m, actions).body == Running
    ensures var n := Run(m, actions);
            && (ShouldStop(n) <==> exists t :: t in n.control && n.control[t] == StopWait)
            && ((exists t :: t in n.control && n.control[t] == KillJoin) ==> !ShouldStop(n))
  {
    RunKeepsInv(m, actions);
    var n := Run(m, actions);
    hide Run;
    forall t | t in n.control && InCall(n.control[t])
      ensures Holder(n.owner, n.control) == n.control[t]
    {
    }
  }

  // ----- A start enters trun -----

  /** A step by which the thread enters trun. */
  predicate Enters(m: Machine, a: Action) {
    m.body != Running && Step(m, a).body == Running
  }

  /** How often the thread entered trun in a run. */
  function Entries(m: Machine, actions: seq<Action>): nat {
    if actions == [] then 0 else
      var last := |actions| - 1;
      Entries(m, actions[..last]) + if Enters(Run(m, actions[..last]), actions[last]) then 1 else 0
  }

  /** A startWorking of t has asked for work that the thread has not begun. */
  predicate Pending(m: Machine, t: Tid) {
    m.owner == HeldBy(t) && t in m.control && StartRequested(m.control[t]) && m.state == Starting
  }

  lemma {:induction false} OnlyHolderSteps(m: Machine, t: Tid, u: Tid, call: Call)
    requires Inv(m) && m.owner == HeldBy(t) && u in m.control && u != t
    ensures var n := ControllerStep(m, u, call);
      n.state == m.state && n.owner == m.owner && n.body == m.body && n.control == m.control[u := n.control[u]]
  {
    assert !InCall(m.control[u]);
    hide Inv;
  }

  lemma {:induction false} PendingStep(m: Machine, t: Tid, a: Action)
    requires Inv(m) && Pending(m, t)
    ensures Enters(m, a) || Pending(Step(m, a), t)
  {
    match a
    case Thread(r) =>
      assert Holder(m.owner, m.control) == m.control[t];
      hide Exclusive, Holder;
    case Controller(u, call) =>
      if u == t {
        hide Inv;
      } else if u in m.control {
        OnlyHolderSteps(m, t, u, call);
        hide Inv, ControllerStep;
      }
  }

  lemma {:induction false} PendingUntilEntry(m: Machine, t: Tid, actions: seq<Action>)
    requires Inv(m) && Pending(m, t)
    ensures Inv(Run(m, actions)) && (Entries(m, actions) > 0 || Pending(Run(m, actions), t))
  {
    hide Inv, Pending, Enters, Step;
    if actions != [] {
      var last := |actions| - 1;
      PendingUntilEntry(m, t, actions[..last]);
      StepKeepsInv(Run(m, actions[..last]), actions[last]);
      if Entries(m, actions[..last]) == 0 { PendingStep(Run(m, actions[..last]), t, actions[last]); }
    }
  }

  /** t is about to ask for work: on a new thread, or on one that has stopped. */
  predicate AboutToStart(m: Machine, t: Tid) {
    t in m.control && (m.control[t] == StartSet || (m.control[t] == StartCas && m.state == Stopped))
  }

  lemma {:induction false} AskingIsPending(m: Machine, t: Tid, call: Call)
    requires Inv(m) && AboutToStart(m, t)
    ensures Pending(Step(m, Controller(t, call)), t)
  {
    assert m.owner == HeldBy(t);
    hide Inv;
  }

  /** In every run, a startWorking that asks a new or a stopped thread for work does not return before
      the thread has entered trun. */
  lemma {:induction false} StartEntersTrun(m: Machine, before: seq<Action>, t: Tid, call: Call, during: seq<Action>, last: Call)
    requires Init(m) && AboutToStart(Run(m, before), t)
    requires var k := Run(Step(Run(m, before), Controller(t, call)), during);
      t in k.control && k.control[t] == StartWait && Step(k, Controller(t, last)).control[t] != StartWait
    ensures Entries(Step(Run(m, before), Controller(t, call)), during) > 0
  {
    var n := Run(m, before);
    var asked := Step(n, Controller(t, call));
    RunKeepsInv(m, before);
    StepKeepsInv(n, Controller(t, call));
    AskingIsPending(n, t, call);
    PendingUntilEntry(asked, t, during);
    hide Run, Inv;
  }

  /** When the destructor's call is over, the thread has ended and is no longer there to be started. */
  lemma {:induction false} KillEndsThread(m: Machine, actions: seq<Action>, t: Tid, call: Call)
    requires Init(m) && t in Run(m, actions).control && Run(m, actions).control[t] == KillReset
    ensures var n := Step(Run(m, actions), Controller(t, call));
      n.body == Exited && !n.work && n.owner == Free && n.control[t] == Idle
  {
    RunKeepsInv(m, actions);
    var n := Run(m, actions);
    hide Run;
    assert Holder(n.owner, n.control) == KillReset;
  }

  // ----- What holds a step up -----

  /** The mutex is taken, or the loop condition of the wait still holds. */
  predicate Blocked(m: Machine, t: Tid)
    requires t in m.control
  {
    match m.control[t]
    case StartEnter | StopEnter | KillEnter => m.owner != Free
    case StartWait => m.state == Starting
    case StopWait => m.state != Stopped
    case KillJoin => m.body != Exited
    case _ => false
  }

  /** A controller stays where it is exactly when it is blocked. */
  lemma ControllerMoves(m: Machine, t: Tid, call: Call)
    requires t in m.control
    ensures ControllerStep(m, t, call).control[t] == m.control[t] <==> Blocked(m, t)
  {
  }

  /** The thread stays where it is exactly when it does not exist, has ended, is inside trun, or sleeps on Stopped. */
  lemma ThreadMoves(m: Machine, trunReturns: bool)
    ensures ThreadStep(m, trunReturns).body == m.body <==>
      m.body == NoThread || m.body == Exited || (m.body == Running && !trunReturns) || (m.body == WaitStopped && m.state == Stopped)
  {
  }

  // ----- Whole lives -----

  /** n is where the run has come to, with this many entries to trun. */
  ghost predicate Trail(m: Machine, actions: seq<Action>, n: Machine, entries: nat) {
    Init(m) && Run(m, actions) == n && Entries(m, actions) == entries
  }

  lemma {:induction false} Then(m: Machine, actions: seq<Action>, n: Machine, k: nat, a: Action)
    returns (more: seq<Action>, next: Machine)
    requires Trail(m, actions, n, k)
    ensures next == Step(n, a) && Trail(m, more, next, if Enters(n, a) then k + 1 else k)
  {
    hide Init;
    more, next := actions + [a], Step(n, a);
    assert more[..|actions|] == actions;
  }

  /** What controller 0 and the thread are at. */
  ghost predicate At(m: Machine, owner: Owner, state: State, work: bool, body: Body, point: Control) {
    m.owner == owner && m.state == state && m.work == work && m.body == body && 0 in m.control && m.control[0] == point
  }

  lemma {:induction false} CallAlone() returns (m: Machine, actions: seq<Action>, n: Machine)
    ensures Trail(m, actions, n, 0) && At(n, Free, Starting, false, NoThread, StartEnter)
  {
    m := Machine(Starting, false, Free, NoThread, map[0 := Idle], false);
    assert Trail(m, [], m, 0);
    hide Trail, StartStep, StopStep, KillStep, ThreadStep;
    actions, n := Then(m, [], m, 0, Controller(0, Start));
  }

  lemma {:induction false} EnterAlone() returns (m: Machine, actions: seq<Action>, n: Machine)
    ensures Trail(m, actions, n, 0) && At(n, HeldBy(0), Starting, false, NoThread, StartSpawn)
  {
    hide Trail, StopStep, KillStep, ThreadStep;
    m, actions, n := CallAlone();
    actions, n := Then(m, actions, n, 0, Controller(0, Start));
    actions, n := Then(m, actions, n, 0, Controller(0, Start));
  }

  /** A start by one controller, up to its return. */
  lemma {:induction false} StartAlone() returns (m: Machine, actions: seq<Action>, n: Machine)
    ensures Trail(m, actions, n, 1) && At(n, Free, Started, true, Running, Idle)
  {
    hide Trail, StopStep, KillStep;
    m, actions, n := EnterAlone();
    var start, thread := Controller(0, Start), Thread(true);
    actions, n := Then(m, actions, n, 0, start);
    actions, n := Then(m, actions, n, 0, start);
    actions, n := Then(m, actions, n, 0, thread);
    actions, n := Then(m, actions, n, 0, thread);
    actions, n := Then(m, actions, n, 1, start);
  }

  /** A destructor does wait while trun runs, and trun is not told. */
  lemma {:induction false} KillCanWaitUnseen() returns (m: Machine, actions: seq<Action>)
    ensures Init(m) && At(Run(m, actions), HeldBy(0), Killing, true, Running, KillJoin) && !ShouldStop(Run(m, actions))
  {
    hide StartStep, StopStep, ThreadStep, Run, Entries, Init;
    var n;
    m, actions, n := StartAlone();
    var kill := Controller(0, Kill);
    actions, n := Then(m, actions, n, 1, kill);
    actions, n := Then(m, actions, n, 1, kill);
    actions, n := Then(m, actions, n, 1, kill);
  }

  /** A stop while trun runs: it returns once trun has. */
  lemma {:induction false} StopAlone() returns (m: Machine, actions: seq<Action>, n: Machine)
    ensures Trail(m, actions, n, 1) && At(n, Free, Stopped, true, Republish(Stopping), Idle)
  {
    hide Trail, StartStep, KillStep;
    m, actions, n := StartAlone();
    var stop, thread := Controller(0, Stop), Thread(true);
    actions, n := Then(m, actions, n, 1, stop);
    actions, n := Then(m, actions, n, 1, stop);
    actions, n := Then(m, actions, n, 1, stop);
    assert At(n, HeldBy(0), Stopping, true, Running, StopWait);
    actions, n := Then(m, actions, n, 1, thread);
    actions, n := Then(m, actions, n, 1, thread);
    actions, n := Then(m, actions, n, 1, stop);
  }

  /** A second start, on the thread that the stop left waiting, asks for work again. */
  lemma {:induction false} AskAgain() returns (m: Machine, actions: seq<Action>, n: Machine)
    ensures Trail(m, actions, n, 1) && At(n, HeldBy(0), Starting, true, Republish(Stopping), StartWait)
  {
    hide Trail, StopStep, KillStep, ThreadStep;
    m, actions, n := StopAlone();
    var start := Controller(0, Start);
    actions, n := Then(m, actions, n, 1, start);
    actions, n := Then(m, actions, n, 1, start);
    actions, n := Then(m, actions, n, 1, start);
  }

  /** And trun is entered a second time. */
  lemma {:induction false} SecondStart() returns (m: Machine, actions: seq<Action>)
    ensures Init(m) && Entries(m, actions) == 2 && At(Run(m, actions), Free, Started, true, Running, Idle)
  {
    hide StopStep, KillStep, Run, Entries, Init;
    var n;
    m, actions, n := AskAgain();
    var thread := Thread(true);
    actions, n := Then(m, actions, n, 1, thread);
    actions, n := Then(m, actions, n, 1, thread);
    actions, n := Then(m, actions, n, 1, thread);
    actions, n := Then(m, actions, n, 1, thread);
    actions, n := Then(m, actions, n, 2, Controller(0, Start));
  }

  // ----- The waiting loops end -----

  predicate Waiting(c: Control) {
    c == StartWait || c == StopWait || c == KillJoin
  }

  /** How many steps of the thread, counting the return of trun as one, the wait of the mutex holder may still take. */
  function Rank(holder: Control, state: State, body: Body): nat {
    match holder
    case StartWait =>
      if state != Starting then 0
      else (match body case Republish(_) => 4 case WaitStopped => 3 case LoopTest => 2 case _ => 1)
    case StopWait =>
      if state == Stopped then 0 else if body == Running then 2 else 1
    case KillJoin =>
      (match body
       case Running => 5 case Publish => 4 case Republish(_) => 3 case WaitStopped => 2 case LoopTest => 1 case _ => 0)
    case _ => 0
  }

  ghost function RankOf(m: Machine): nat {
    Rank(Holder(m.owner, m.control), m.state, m.body)
  }

  lemma {:induction false} ThreadLowersRank(m: Machine, trunReturns: bool)
    requires Inv(m) && Waiting(Holder(m.owner, m.control))
    ensures RankOf(ThreadStep(m, trunReturns)) <= RankOf(m)
    ensures trunReturns && RankOf(m) > 0 ==> RankOf(ThreadStep(m, trunReturns)) < RankOf(m)
  {
    hide Exclusive, Holder;
  }

  lemma {:induction false} OthersKeepRank(m: Machine, t: Tid, call: Call)
    requires Inv(m) && Waiting(Holder(m.owner, m.control)) && t in m.control && m.owner != HeldBy(t)
    ensures var n := ControllerStep(m, t, call);
            n.owner == m.owner && Holder(n.owner, n.control) == Holder(m.owner, m.control) && RankOf(n) == RankOf(m)
  {
    assert !InCall(m.control[t]);
  }

  /** The thread steps of a run at which trun, if running, returns. */
  function ThreadSteps(actions: seq<Action>): nat {
    if actions == [] then 0
    else ThreadSteps(actions[..|actions| - 1]) + if actions[|actions| - 1] == Thread(true) then 1 else 0
  }

  ghost predicate Held(m: Machine, t: Tid, c: Control) {
    Inv(m) && m.owner == HeldBy(t) && Holder(m.owner, m.control) == c
  }

  lemma {:induction false} WaitStep(m: Machine, t: Tid, c: Control, a: Action)
    requires Held(m, t, c) && Waiting(c) && (a.Thread? || a.t != t)
    ensures Held(Step(m, a), t, c) && RankOf(Step(m, a)) <= RankOf(m)
    ensures a == Thread(true) && RankOf(m) > 0 ==> RankOf(Step(m, a)) < RankOf(m)
  {
    StepKeepsInv(m, a);
    hide Inv, RankOf;
    match a
    case Thread(r) =>
      ThreadLowersRank(m, r);
    case Controller(u, call) =>
      if u in m.control { OthersKeepRank(m, u, call); }
  }

  lemma {:induction false} RankRunsDown(m: Machine, t: Tid, c: Control, actions: seq<Action>)
    requires Held(m, t, c) && Waiting(c)
    requires forall i :: 0 <= i < |actions| ==> actions[i].Thread? || actions[i].t != t
    ensures var n := Run(m, actions);
            Held(n, t, c) && (RankOf(n) == 0 || RankOf(n) + ThreadSteps(actions) <= RankOf(m))
  {
    hide Held, RankOf, Step;
    if actions != [] {
      var last := |actions| - 1;
      RankRunsDown(m, t, c, actions[..last]);
      WaitStep(Run(m, actions[..last]), t, c, actions[last]);
    }
  }

  /** However the other threads interleave, five steps of the worker thread with trun returning are enough
      for every spin loop and for join: the waiting call then goes on at its next step. */
  lemma {:induction false} EveryWaitEnds(m: Machine, before: seq<Action>, t: Tid, actions: seq<Action>, call: Call)
    requires Init(m)
    requires var n := Run(m, before); t in n.control && Waiting(n.control[t])
    requires forall i :: 0 <= i < |actions| ==> actions[i].Thread? || actions[i].t != t
    requires ThreadSteps(actions) >= 5
    ensures var n := Run(Run(m, before), actions);
            t in n.control && n.control[t] == Run(m, before).control[t]
            && ControllerStep(n, t, call).control[t] != n.control[t]
  {
    RunKeepsInv(m, before);
    var n := Run(m, before);
    var c := n.control[t];
    ControllerKeepsMutex(n, t, call);
    assert Held(n, t, c);
    RankRunsDown(n, t, c, actions);
    var k := Run(n, actions);
    hide Run, ThreadSteps;
    RankZeroLeaves(k, t, c, call);
  }

  lemma {:induction false} RankZeroLeaves(m: Machine, t: Tid, c: Control, call: Call)
    requires Held(m, t, c) && Waiting(c) && RankOf(m) == 0
    ensures t in m.control && m.control[t] == c && ControllerStep(m, t, call).control[t] != c
  {
  }
}
