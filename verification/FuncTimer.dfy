/**
The timer protocol of `func_timer_class` as a transition system.

A parent runs a caller's function while a forked child sleeps and then sends SIGUSR1.  The signal may
be handled between any two statements of the parent, also inside `cleanup`; the handler `timed_out`
then runs a nested `cleanup` and raises.  One `Action` is one atomic step of the parent, of a child, or of
the caller between two runs.  The state holds exactly what those steps read and write: the object's
fields, the process-wide handler, every child ever forked, and the signals sent but not yet handled.
*/
module FuncTimer {

  /** A SIGUSR1 disposition.  `TimedOut` is the object's own handler; `User` is any other Python handler. */
  datatype Handler = Default | Ignore | User(id: nat, raises: bool) | TimedOut

  /** A timer child from `fork` to `waitpid`. */
  datatype Proc = Alive(sent: bool, killed: bool) | Zombie | Reaped

  /** The statement of `cleanup` that an activation executes next. */
  datatype Cleanup = Log | Guard | Restore | Kill | Wait | Clear | LogChildren | Done

  /** The statement of `run` that is executed next; `Idle` is the caller's code, outside `run`. */
  datatype Pc =
    | Idle
    | Reset
    | Save
    | Install
    | Fork
    | Store
    | Announce
    | Func
    | Leaving
    | Cleaning(c: Cleanup)

  datatype State = State(
    pc: Pc,
    nested: seq<Cleanup>,      // activations of `timed_out`, innermost last
    childPid: nat,
    timed: bool,               // __time_out is not None
    named: bool,               // __func has a __name__
    original: Handler,         // __original_SIGUSR1_handler
    handler: Handler,          // the handler in force in the process
    procs: map<nat, Proc>,
    nextPid: nat,
    pending: set<nat>,         // senders of the signals not yet handled
    dead: bool,                // the parent was killed by SIGUSR1
    own: nat,                  // the child forked by the current run, 0 before the fork
    entry: Handler,            // the handler in force when the current run began
    struck: bool               // a signal handler has raised an exception inside the caller's function
  )

  /** Assumptions on the environment: `window` allows a signal to be handled between `fork` and the store of
      its result; `prompt` makes a signal be handled, at any statement, before `run` is left. */
  datatype Environment = Environment(window: bool, prompt: bool)

  datatype Action =
    | Begin(timed: bool, named: bool)
    | Reject(named: bool)
    | SetHandler(h: Handler)
    | Parent
    | FuncRaises
    | ChildSends(pid: nat)
    | ChildExits(pid: nat)
    | Deliver

  function Init(h: Handler): State {
    State(Idle, [], 0, false, true, h, h, map[], 1, {}, false, 0, h, false)
  }

  // ----- One step -----

  function Last(frames: seq<Cleanup>): Cleanup
    requires frames != []
  {
    frames[|frames| - 1]
  }

  function Front(frames: seq<Cleanup>): seq<Cleanup>
    requires frames != []
  {
    frames[..|frames| - 1]
  }

  /** The activation of `cleanup` that executes next; `Log` when there is none. */
  function Top(s: State): Cleanup {
    if s.nested != [] then Last(s.nested)
    else if s.pc.Cleaning? then s.pc.c
    else Log
  }

  /** One statement of `cleanup`, executed by an activation that stands at `c`. */
  function CleanupStep(s: State, c: Cleanup): (State, Cleanup) {
    match c
    case Log => (s, Guard)
    case Guard => (s, if s.childPid == 0 || !s.timed then Done else Restore)
    case Restore => (if s.original != Default then s.(handler := s.original) else s, Kill)
    case Kill =>
      (if s.childPid in s.procs && s.procs[s.childPid].Alive?
       then s.(procs := s.procs[s.childPid := s.procs[s.childPid].(killed := true)])
       else s, Wait)
    case Wait =>
      (if s.childPid in s.procs && s.procs[s.childPid].Zombie?
       then s.(procs := s.procs[s.childPid := Reaped])
       else s, Clear)
    case Clear => (s.(childPid := 0), LogChildren)
    case LogChildren => (s, Done)
    case Done => (s, Done)
  }

  /** The activations that an exception raised at the innermost one leaves.  `attribute` says that it is an
      AttributeError, the only kind of exception here that the guarded logging at the head of `cleanup` swallows. */
  function Unwind(frames: seq<Cleanup>, attribute: bool): seq<Cleanup>
    decreases |frames|
  {
    if frames == [] then []
    else if attribute && Last(frames) == Log then Front(frames) + [Guard]
    else Unwind(Front(frames), attribute)
  }

  /** An exception raised at the innermost activation. */
  function Throw(s: State, attribute: bool): State {
    var t := s.(nested := Unwind(s.nested, attribute));
    if t.nested != [] then t
    else
      match s.pc
      case Idle => t
      case Func => t.(struck := true)   // the caller's function may handle it; otherwise FuncRaises follows
      case Cleaning(Log) => if attribute then t.(pc := Cleaning(Guard)) else t.(pc := Idle)
      case _ => t.(pc := Idle)
  }

  /** The parent's next statement. */
  function ParentStep(s: State): State {
    if s.nested != [] then
      if Last(s.nested) == Done then Throw(s.(nested := Front(s.nested)), !s.named)
      else
        var (t, c) := CleanupStep(s, Last(s.nested));
        t.(nested := Front(s.nested) + [c])
    else
      match s.pc
      case Idle => s
      case Reset => s.(childPid := 0, pc := if s.timed then Save else Announce)
      case Save => s.(original := s.handler, pc := Install)
      case Install => s.(handler := TimedOut, pc := Fork)
      case Fork =>
        s.(procs := s.procs[s.nextPid := Alive(false, false)], own := s.nextPid, nextPid := s.nextPid + 1, pc := Store)
      case Store => s.(childPid := s.own, pc := Announce)
      case Announce => if s.named then s.(pc := Func) else Throw(s, true)
      case Func => s.(pc := Leaving)
      case Leaving => s.(pc := Cleaning(Log))
      case Cleaning(Done) => s.(pc := Idle)
      case Cleaning(c) =>
        var (t, c') := CleanupStep(s, c);
        t.(pc := Cleaning(c'))
  }

  /** `waitpid` blocks while the child lives. */
  predicate MayWait(s: State) {
    s.childPid in s.procs ==> !s.procs[s.childPid].Alive?
  }

  /** The parent's next statement is the last one of `run`. */
  predicate AboutToLeave(s: State) {
    s.nested == [] && s.pc == Cleaning(Done)
  }

  predicate Enabled(env: Environment, s: State, a: Action) {
    && !s.dead
    && match a
       case Begin(_, _) => s.pc.Idle? && s.nested == []
       case Reject(_) => s.pc.Idle? && s.nested == []
       case SetHandler(_) => s.pc.Idle? && s.nested == []
       case Parent =>
         && (s.pc.Idle? ==> s.nested != [])
         && (Top(s) == Wait ==> MayWait(s))
         && (env.prompt && AboutToLeave(s) ==> s.pending == {})
       case FuncRaises => s.pc.Func? && s.nested == []
       case ChildSends(pid) => pid in s.procs && s.procs[pid].Alive? && !s.procs[pid].sent
       case ChildExits(pid) => pid in s.procs && s.procs[pid].Alive? && (s.procs[pid].sent || s.procs[pid].killed)
       case Deliver => s.pending != {} && (s.pc.Store? ==> env.window)
  }

  function Apply(s: State, a: Action): State {
    match a
    case Begin(timed, named) =>
      s.(pc := Reset, timed := timed, named := named, own := 0, entry := s.handler, struck := false)
    case Reject(named) => s.(timed := true, named := named)
    case SetHandler(h) => s.(handler := h)
    case Parent => ParentStep(s)
    case FuncRaises => s.(pc := Leaving)
    case ChildSends(pid) =>
      if pid !in s.procs || !s.procs[pid].Alive? then s
      else
        var t := s.(procs := s.procs[pid := s.procs[pid].(sent := true)]);
        (match s.handler
         case Default => t.(dead := true)
         case Ignore => t
         case _ => t.(pending := t.pending + {pid}))
    case ChildExits(pid) => s.(procs := s.procs[pid := Zombie])
    case Deliver =>
      var t := s.(pending := {});
      (match s.handler
       case TimedOut => t.(nested := t.nested + [Log])
       case User(_, raises) => if raises then Throw(t, false) else t
       case _ => t)
  }

  /** The trace leads from s to s'. */
  predicate Runs(env: Environment, s: State, trace: seq<Action>, s': State)
    decreases |trace|
  {
    if trace == [] then s' == s
    else Enabled(env, s, trace[0]) && Runs(env, Apply(s, trace[0]), trace[1..], s')
  }

  // ----- What the caller must observe -----

  predicate Quiet(h: Handler) {
    h.User? ==> !h.raises
  }

  /** The caller times only functions that have a `__name__` and installs only handlers that do not raise. */
  predicate Disciplined(a: Action) {
    match a
    case Begin(timed, named) => timed ==> named
    case SetHandler(h) => Quiet(h)
    case _ => true
  }

  predicate DisciplinedTrace(trace: seq<Action>) {
    forall i :: 0 <= i < |trace| ==> Disciplined(trace[i])
  }

  /** Nothing is left behind: no child pid is recorded and every child ever forked was waited for. */
  predicate Clean(s: State) {
    s.childPid == 0 && forall p :: p in s.procs ==> s.procs[p].Reaped?
  }

  // ----- The invariant -----

  predicate TimerStarted(pc: Pc) {
    pc.Announce? || pc.Func? || pc.Leaving? || pc.Cleaning?
  }

  predicate Harmless(c: Cleanup) {
    c == Log || c == Guard || c == Done
  }

  ghost predicate PcInv(s: State) {
    && (s.pc.Reset? || s.pc.Save? || s.pc.Install? || s.pc.Fork? ==> s.own == 0)
    && (s.pc.Save? || s.pc.Install? || s.pc.Fork? ==> s.childPid == 0 && s.timed && s.named)
    && (s.pc.Fork? ==> s.handler == TimedOut)
    && (s.pc.Store? ==> s.nested == [] && s.own != 0 && s.timed && s.named && s.handler == TimedOut && s.childPid == 0)
    && (s.timed && !s.named ==> s.pc.Idle?)
    && (s.own != 0 && !s.pc.Idle? ==> s.timed)
  }

  ghost predicate FrameInv(s: State) {
    && (Top(s) in {Restore, Kill, Wait, Clear} ==> s.childPid != 0 && s.childPid in s.procs)
    && (Top(s) == Wait && s.procs[s.childPid].Alive? ==> s.procs[s.childPid].killed)
    && (Top(s) == Clear ==> s.procs[s.childPid].Reaped?)
    && (Top(s) in {LogChildren, Done} ==> s.childPid == 0)
    && (!s.named ==>
          && (forall i :: 0 <= i < |s.nested| ==> Harmless(s.nested[i]))
          && (s.pc.Cleaning? ==> Harmless(s.pc.c)))
  }

  ghost predicate ChildInv(s: State) {
    && s.nextPid > 0
    && (forall p :: p in s.procs ==> 0 < p < s.nextPid)
    && (forall p :: p in s.procs && !s.procs[p].Reaped? ==> p == s.own)
    && (s.own != 0 ==> s.own in s.procs)
    && (s.childPid != 0 ==> s.childPid == s.own && s.timed && s.named && s.handler != Default && TimerStarted(s.pc))
    && (s.own != 0 && !s.procs[s.own].Reaped? ==> s.childPid == s.own || s.pc.Store?)
  }

  ghost predicate Inv(s: State) {
    && !s.dead
    && Quiet(s.handler) && Quiet(s.original)
    && PcInv(s) && FrameInv(s) && ChildInv(s)
  }

  lemma {:induction false} UnwindLeavesAll(frames: seq<Cleanup>)
    ensures Unwind(frames, false) == []
    decreases |frames|
  {
    if frames != [] {
      UnwindLeavesAll(Front(frames));
    }
  }

  lemma {:induction false} UnwindShortens(frames: seq<Cleanup>, attribute: bool)
    ensures |Unwind(frames, attribute)| <= |frames|
    decreases |frames|
  {
    if frames != [] {
      UnwindShortens(Front(frames), attribute);
    }
  }

  lemma ThrowUnwinds(s: State, attribute: bool)
    ensures Throw(s, attribute).(pc := s.pc, nested := s.nested, struck := s.struck) == s
    ensures !attribute ==> Throw(s, attribute).nested == []
    ensures !attribute ==> Throw(s, attribute).pc == if s.pc.Func? then Func else Idle
    ensures attribute ==> |Throw(s, attribute).nested| <= |s.nested|
  {
    if attribute {
      UnwindShortens(s.nested, true);
    } else {
      UnwindLeavesAll(s.nested);
    }
  }

  predicate AllHarmless(frames: seq<Cleanup>) {
    forall i :: 0 <= i < |frames| ==> Harmless(frames[i])
  }

  lemma {:induction false} UnwindIsHarmless(frames: seq<Cleanup>, attribute: bool)
    requires AllHarmless(frames)
    ensures AllHarmless(Unwind(frames, attribute))
    decreases |frames|
  {
    if frames != [] {
      UnwindIsHarmless(Front(frames), attribute);
    }
  }

  lemma {:induction false} UnwindStandsAtGuard(frames: seq<Cleanup>, attribute: bool)
    ensures Unwind(frames, attribute) != [] ==> Last(Unwind(frames, attribute)) == Guard
    decreases |frames|
  {
    if frames != [] {
      UnwindStandsAtGuard(Front(frames), attribute);
    }
  }

  lemma ThrowKeepsInv(s: State, attribute: bool)
    requires !s.dead && Quiet(s.handler) && Quiet(s.original)
    requires PcInv(s) && ChildInv(s) && s.childPid == 0 && !s.pc.Store?
    requires attribute ==> !s.named
    requires !s.named ==> AllHarmless(s.nested)
    requires !s.named ==> s.pc.Cleaning? ==> Harmless(s.pc.c)
    ensures Inv(Throw(s, attribute))
  {
    UnwindStandsAtGuard(s.nested, attribute);
    UnwindLeavesAll(s.nested);
    if !s.named {
      UnwindIsHarmless(s.nested, attribute);
    }
  }

  lemma NestedCleanupKeepsInv(env: Environment, s: State)
    requires Inv(s) && Enabled(env, s, Parent) && s.nested != [] && Last(s.nested) != Done
    ensures Inv(Apply(s, Parent))
  {
    var t := Apply(s, Parent);
    assert Top(t) == Last(t.nested);
  }

  lemma MainCleanupKeepsInv(env: Environment, s: State)
    requires Inv(s) && Enabled(env, s, Parent) && s.nested == [] && s.pc.Cleaning? && s.pc.c != Done
    ensures Inv(Apply(s, Parent))
  {
  }

  lemma NestedDoneKeepsInv(env: Environment, s: State)
    requires Inv(s) && Enabled(env, s, Parent) && s.nested != [] && Last(s.nested) == Done
    ensures Inv(Apply(s, Parent))
  {
    ThrowKeepsInv(s.(nested := Front(s.nested)), !s.named);
  }

  lemma MainKeepsInv(env: Environment, s: State)
    requires !env.window
    requires Inv(s) && Enabled(env, s, Parent) && s.nested == [] && !s.pc.Cleaning?
    ensures Inv(Apply(s, Parent))
  {
    if s.pc.Announce? && !s.named {
      ThrowKeepsInv(s, true);
    }
  }

  lemma ParentKeepsInv(env: Environment, s: State)
    requires !env.window
    requires Inv(s) && Enabled(env, s, Parent)
    ensures Inv(Apply(s, Parent))
  {
    if s.nested != [] {
      if Last(s.nested) == Done {
        NestedDoneKeepsInv(env, s);
      } else {
        NestedCleanupKeepsInv(env, s);
      }
    } else if s.pc.Cleaning? {
      if s.pc.c != Done {
        MainCleanupKeepsInv(env, s);
      }
    } else {
      MainKeepsInv(env, s);
    }
  }

  lemma ChildKeepsInv(env: Environment, s: State, a: Action)
    requires Inv(s) && Enabled(env, s, a) && (a.ChildSends? || a.ChildExits?)
    ensures Inv(Apply(s, a))
  {
    assert a.pid == s.own;
    assert PcInv(Apply(s, a));
    assert FrameInv(Apply(s, a));
  }

  lemma DeliverKeepsInv(env: Environment, s: State)
    requires !env.window
    requires Inv(s) && Enabled(env, s, Deliver)
    ensures Inv(Apply(s, Deliver))
  {
    var t := Apply(s, Deliver);
    if s.handler == TimedOut {
      assert t == s.(pending := {}, nested := s.nested + [Log]);
      assert FrameInv(t);
    } else {
      assert t == s.(pending := {});
    }
  }

  lemma CallerKeepsInv(env: Environment, s: State, a: Action)
    requires Inv(s) && Enabled(env, s, a) && Disciplined(a)
    requires a.Begin? || a.Reject? || a.SetHandler? || a.FuncRaises?
    ensures Inv(Apply(s, a))
  {
  }

  lemma StepKeepsInv(env: Environment, s: State, a: Action)
    requires !env.window
    requires Inv(s) && Enabled(env, s, a) && Disciplined(a)
    ensures Inv(Apply(s, a))
  {
    match a
    case Parent => ParentKeepsInv(env, s);
    case ChildSends(_) => ChildKeepsInv(env, s, a);
    case ChildExits(_) => ChildKeepsInv(env, s, a);
    case Deliver => DeliverKeepsInv(env, s);
    case _ => CallerKeepsInv(env, s, a);
  }

  lemma {:induction false} RunsKeepInv(env: Environment, s: State, trace: seq<Action>, s': State)
    requires !env.window
    requires Inv(s) && DisciplinedTrace(trace) && Runs(env, s, trace, s')
    ensures Inv(s')
    decreases |trace|
  {
    if trace != [] {
      StepKeepsInv(env, s, trace[0]);
      RunsKeepInv(env, Apply(s, trace[0]), trace[1..], s');
    }
  }

  // ----- Theorem 1: nothing is left behind, and SIGUSR1 never kills the parent -----

  /** Over every interleaving, and for any number of runs: the parent is never killed by its own timer, and
      whenever it is outside `run` no child pid is recorded and every child has been reaped. */
  lemma CleanOutsideRun(env: Environment, h: Handler, trace: seq<Action>, s: State)
    requires !env.window && Quiet(h)
    requires DisciplinedTrace(trace) && Runs(env, Init(h), trace, s)
    ensures !s.dead
    ensures s.pc.Idle? ==> Clean(s)
  {
    RunsKeepInv(env, Init(h), trace, s);
  }

  /** A SIGKILL goes only to the pid that the timer child of the current run got: never to pid 0, never to the pid of
      another run's child.  Whether that child may have been reaped already is Theorem 4. */
  lemma KillsOnlyOwnChild(env: Environment, h: Handler, trace: seq<Action>, s: State)
    requires !env.window && Quiet(h)
    requires DisciplinedTrace(trace) && Runs(env, Init(h), trace, s)
    ensures Top(s) == Kill ==> s.childPid == s.own != 0 && s.own in s.procs
  {
    RunsKeepInv(env, Init(h), trace, s);
  }

  predicate ByCaller(a: Action) {
    a.Begin? || a.Reject? || a.SetHandler?
  }

  /** The actions of one run: the caller does nothing until the run has left. */
  predicate OneRun(trace: seq<Action>) {
    forall i :: 0 <= i < |trace| ==> !ByCaller(trace[i])
  }

  /** From a fresh object with handler h in force, every way to execute one run leaves nothing behind. */
  ghost predicate AlwaysClean(env: Environment, h: Handler, timed: bool, named: bool) {
    forall trace, s :: OneRun(trace) && Runs(env, Init(h), [Begin(timed, named)] + trace, s) && s.pc.Idle? ==> Clean(s)
  }

  lemma {:induction false} Extend(env: Environment, s: State, trace: seq<Action>, s': State, a: Action)
    requires Runs(env, s, trace, s') && Enabled(env, s', a)
    ensures Runs(env, s, trace + [a], Apply(s', a))
    decreases |trace|
  {
    if trace == [] {
      assert Runs(env, Apply(s', a), [a][1..], Apply(s', a));
    } else {
      Extend(env, Apply(s, trace[0]), trace[1..], s', a);
      assert (trace + [a])[1..] == trace[1..] + [a];
    }
  }

  /** A step of a run that leads from one given state to another. */
  predicate StepTo(env: Environment, s: State, a: Action, next: State) {
    Enabled(env, s, a) && !ByCaller(a) && Apply(s, a) == next
  }

  /** The actions lead through the states one by one. */
  predicate Chain(env: Environment, states: seq<State>, actions: seq<Action>) {
    && |states| == |actions| + 1
    && forall i :: 0 <= i < |actions| ==> StepTo(env, states[i], actions[i], states[i + 1])
  }

  lemma {:induction false} ChainRuns(env: Environment, states: seq<State>, actions: seq<Action>)
    requires Chain(env, states, actions)
    ensures Runs(env, states[0], actions, states[|actions|]) && OneRun(actions)
    decreases |actions|
  {
    forall i | 0 <= i < |actions|
      ensures !ByCaller(actions[i])
    {
      assert StepTo(env, states[i], actions[i], states[i + 1]);
    }
    if actions != [] {
      assert StepTo(env, states[0], actions[0], states[1]);
      forall i | 0 <= i < |actions[1..]|
        ensures StepTo(env, states[1..][i], actions[1..][i], states[1..][i + 1])
      {
        assert StepTo(env, states[i + 1], actions[i + 1], states[i + 2]);
      }
      ChainRuns(env, states[1..], actions[1..]);
    }
  }

  lemma {:induction false} RunsJoin(env: Environment, s: State, a: seq<Action>, mid: State, b: seq<Action>, s': State)
    requires Runs(env, s, a, mid) && Runs(env, mid, b, s')
    ensures Runs(env, s, a + b, s')
    decreases |a|
  {
    if a == [] {
      assert a + b == b;
    } else {
      assert (a + b)[1..] == a[1..] + b;
      RunsJoin(env, Apply(s, a[0]), a[1..], mid, b, s');
    }
  }

  /** From the state reached, the run goes on along the chain. */
  lemma Follow(env: Environment, h: Handler, b: Action, t: seq<Action>, states: seq<State>, actions: seq<Action>)
    returns (t': seq<Action>)
    requires Chain(env, states, actions)
    requires Runs(env, Init(h), [b] + t, states[0]) && OneRun(t)
    ensures Runs(env, Init(h), [b] + t', states[|actions|]) && OneRun(t')
  {
    ChainRuns(env, states, actions);
    RunsJoin(env, Init(h), [b] + t, states[0], actions, states[|actions|]);
    t' := t + actions;
    assert [b] + t' == ([b] + t) + actions;
  }

  /** The state of a first run with a time-out, its child forked and no signal pending. */
  function FirstRun(pc: Pc, childPid: nat, named: bool, h: Handler, handler: Handler, child: Proc): State {
    State(pc, [], childPid, true, named, h, handler, map[1 := child], 2, {}, false, 1, h, false)
  }

  const NEW := Alive(false, false)

  /** The run has begun, and is about to install its handler. */
  lemma SavingChain(env: Environment, h: Handler, named: bool) returns (states: seq<State>, actions: seq<Action>)
    ensures Chain(env, states, actions)
    ensures states[0] == Apply(Init(h), Begin(true, named))
    ensures states[|actions|] == Init(h).(pc := Install, timed := true, named := named)
  {
    var s0 := Init(h).(pc := Reset, timed := true, named := named);
    var s1, s2 := s0.(pc := Save), s0.(pc := Install);
    assert StepTo(env, s0, Parent, s1);
    assert StepTo(env, s1, Parent, s2);
    states, actions := [s0, s1, s2], [Parent, Parent];
  }

  lemma ForkingChain(env: Environment, h: Handler, named: bool) returns (states: seq<State>, actions: seq<Action>)
    ensures Chain(env, states, actions)
    ensures states[0] == Init(h).(pc := Install, timed := true, named := named)
    ensures states[|actions|] == FirstRun(Store, 0, named, h, TimedOut, NEW)
  {
    var s0 := Init(h).(pc := Install, timed := true, named := named);
    var s1, s2 := s0.(pc := Fork, handler := TimedOut), FirstRun(Store, 0, named, h, TimedOut, NEW);
    assert StepTo(env, s0, Parent, s1);
    assert map[][1 := NEW] == map[1 := NEW];
    assert StepTo(env, s1, Parent, s2);
    states, actions := [s0, s1, s2], [Parent, Parent];
  }

  /** The run has forked its child and is about to record the child's pid. */
  lemma Forked(env: Environment, h: Handler, named: bool) returns (t: seq<Action>)
    ensures Runs(env, Init(h), [Begin(true, named)] + t, FirstRun(Store, 0, named, h, TimedOut, NEW)) && OneRun(t)
  {
    var states, actions := SavingChain(env, h, named);
    var b := Begin(true, named);
    assert ([b] + [])[1..] == [];
    assert Runs(env, Init(h), [b] + [], states[0]);
    t := Follow(env, h, b, [], states, actions);
    states, actions := ForkingChain(env, h, named);
    t := Follow(env, h, b, t, states, actions);
  }

  /** The only child sends its signal. */
  lemma SendStep(env: Environment, s: State, killed: bool)
    requires !s.dead && s.procs == map[1 := Alive(false, killed)] && s.pending == {}
    requires s.handler.TimedOut? || s.handler.User?
    ensures StepTo(env, s, ChildSends(1), s.(procs := map[1 := Alive(true, killed)], pending := {1}))
  {
    assert s.procs[1 := Alive(true, killed)] == map[1 := Alive(true, killed)];
    assert s.pending + {1} == {1};
  }

  /** The only child, killed, dies. */
  lemma ExitStep(env: Environment, s: State)
    requires !s.dead && s.procs == map[1 := Alive(true, true)]
    ensures StepTo(env, s, ChildExits(1), s.(procs := map[1 := Zombie]))
  {
    assert s.procs[1 := Zombie] == map[1 := Zombie];
  }

  /** The handler is entered before the child's pid is recorded. */
  lemma EnterHandler(env: Environment, s: State) returns (states: seq<State>, actions: seq<Action>)
    requires env.window && s.pc.Store? && s.nested == [] && s.handler == TimedOut && !s.dead && s.pending != {}
    ensures Chain(env, states, actions)
    ensures states[0] == s && states[|actions|] == s.(pending := {}, nested := [Guard])
  {
    var s1, s2 := s.(pending := {}, nested := [Log]), s.(pending := {}, nested := [Guard]);
    assert StepTo(env, s, Deliver, s1);
    assert Front([Log]) == [];
    assert StepTo(env, s1, Parent, s2);
    states, actions := [s, s1, s2], [Deliver, Parent];
  }

  /** The handler finds no child to clean up, and raises. */
  lemma LeaveHandler(env: Environment, s: State) returns (states: seq<State>, actions: seq<Action>)
    requires s.pc.Store? && s.nested == [Guard] && s.childPid == 0 && !s.dead
    ensures Chain(env, states, actions)
    ensures states[0] == s && states[|actions|] == s.(pc := Idle, nested := [])
  {
    var s1, s2 := s.(nested := [Done]), s.(pc := Idle, nested := []);
    assert Front([Guard]) == [] && Front([Done]) == [];
    assert StepTo(env, s, Parent, s1);
    assert StepTo(env, s1, Parent, s2);
    states, actions := [s, s1, s2], [Parent, Parent];
  }

  /** The child has sent its signal before its pid is recorded. */
  lemma SentEarly(env: Environment, h: Handler, named: bool) returns (t: seq<Action>)
    ensures OneRun(t)
    ensures Runs(env, Init(h), [Begin(true, named)] + t,
                 FirstRun(Store, 0, named, h, TimedOut, Alive(true, false)).(pending := {1}))
  {
    t := Forked(env, h, named);
    var s0 := FirstRun(Store, 0, named, h, TimedOut, NEW);
    var s1 := FirstRun(Store, 0, named, h, TimedOut, Alive(true, false)).(pending := {1});
    SendStep(env, s0, false);
    t := Follow(env, h, Begin(true, named), t, [s0, s1], [ChildSends(1)]);
  }

  /** A signal handled between `fork` and the store finds no child pid: the child is never reaped. */
  lemma LeakInWindow(env: Environment, h: Handler, named: bool)
    requires env.window
    ensures !AlwaysClean(env, h, true, named)
  {
    var t := SentEarly(env, h, named);
    var s1 := FirstRun(Store, 0, named, h, TimedOut, Alive(true, false)).(pending := {1});
    var states, actions := EnterHandler(env, s1);
    t := Follow(env, h, Begin(true, named), t, states, actions);
    states, actions := LeaveHandler(env, s1.(pending := {}, nested := [Guard]));
    t := Follow(env, h, Begin(true, named), t, states, actions);
    var last := states[|actions|];
    assert 1 in last.procs && !last.procs[1].Reaped?;
  }

  /** Announcing a function without a `__name__` raises outside the `try`: `cleanup` is skipped. */
  lemma LeakUnnamed(env: Environment, h: Handler)
    ensures !AlwaysClean(env, h, true, false)
  {
    var t := Forked(env, h, false);
    var s0, s1 := FirstRun(Store, 0, false, h, TimedOut, NEW), FirstRun(Announce, 1, false, h, TimedOut, NEW);
    var s2 := FirstRun(Idle, 1, false, h, TimedOut, NEW);
    assert StepTo(env, s0, Parent, s1);
    assert StepTo(env, s1, Parent, s2);
    t := Follow(env, h, Begin(true, false), t, [s0, s1, s2], [Parent, Parent]);
    assert s2.childPid == 1;
  }

  /** The handler that a timed run leaves in force: SIG_DFL compares equal to 0 and is not restored. */
  function LeftBehind(h: Handler): Handler {
    if h == Default then TimedOut else h
  }

  lemma StartingChain(env: Environment, h: Handler) returns (states: seq<State>, actions: seq<Action>)
    ensures Chain(env, states, actions)
    ensures states[0] == FirstRun(Store, 0, true, h, TimedOut, NEW)
    ensures states[|actions|] == FirstRun(Func, 1, true, h, TimedOut, NEW)
  {
    var s0, s1 := FirstRun(Store, 0, true, h, TimedOut, NEW), FirstRun(Announce, 1, true, h, TimedOut, NEW);
    var s2 := FirstRun(Func, 1, true, h, TimedOut, NEW);
    assert StepTo(env, s0, Parent, s1);
    assert StepTo(env, s1, Parent, s2);
    states, actions := [s0, s1, s2], [Parent, Parent];
  }

  lemma CallingChain(env: Environment, h: Handler) returns (states: seq<State>, actions: seq<Action>)
    ensures Chain(env, states, actions)
    ensures states[0] == FirstRun(Func, 1, true, h, TimedOut, NEW)
    ensures states[|actions|] == FirstRun(Cleaning(Log), 1, true, h, TimedOut, NEW)
  {
    var s0, s1 := FirstRun(Func, 1, true, h, TimedOut, NEW), FirstRun(Leaving, 1, true, h, TimedOut, NEW);
    var s2 := FirstRun(Cleaning(Log), 1, true, h, TimedOut, NEW);
    assert StepTo(env, s0, Parent, s1);
    assert StepTo(env, s1, Parent, s2);
    states, actions := [s0, s1, s2], [Parent, Parent];
  }

  lemma RestoreStep(env: Environment, s: State)
    requires !s.dead && s.pc == Cleaning(Restore) && s.nested == [] && s.handler == TimedOut
    ensures StepTo(env, s, Parent, s.(pc := Cleaning(Kill), handler := LeftBehind(s.original)))
  {
  }

  lemma CleaningChain(env: Environment, h: Handler) returns (states: seq<State>, actions: seq<Action>)
    ensures Chain(env, states, actions)
    ensures states[0] == FirstRun(Cleaning(Log), 1, true, h, TimedOut, NEW)
    ensures states[|actions|] == FirstRun(Cleaning(Restore), 1, true, h, TimedOut, NEW)
  {
    var s0 := FirstRun(Cleaning(Log), 1, true, h, TimedOut, NEW);
    var s1 := FirstRun(Cleaning(Guard), 1, true, h, TimedOut, NEW);
    var s2 := FirstRun(Cleaning(Restore), 1, true, h, TimedOut, NEW);
    assert StepTo(env, s0, Parent, s1);
    assert StepTo(env, s1, Parent, s2);
    states, actions := [s0, s1, s2], [Parent, Parent];
  }

  /** An uninterrupted run has called its function and restored the handler, and is about to kill the child. */
  lemma HandlerRestored(env: Environment, h: Handler) returns (t: seq<Action>)
    ensures Runs(env, Init(h), [Begin(true, true)] + t, FirstRun(Cleaning(Kill), 1, true, h, LeftBehind(h), NEW))
            && OneRun(t)
  {
    t := Forked(env, h, true);
    var states, actions := StartingChain(env, h);
    t := Follow(env, h, Begin(true, true), t, states, actions);
    states, actions := CallingChain(env, h);
    t := Follow(env, h, Begin(true, true), t, states, actions);
    states, actions := CleaningChain(env, h);
    t := Follow(env, h, Begin(true, true), t, states, actions);
    var s0 := FirstRun(Cleaning(Restore), 1, true, h, TimedOut, NEW);
    var s1 := FirstRun(Cleaning(Kill), 1, true, h, LeftBehind(h), NEW);
    RestoreStep(env, s0);
    t := Follow(env, h, Begin(true, true), t, [s0, s1], [Parent]);
  }

  /** A restored handler that raises abandons `cleanup` before the child is killed. */
  lemma LeakRaisingHandler(env: Environment, h: Handler)
    requires h.User? && h.raises
    ensures !AlwaysClean(env, h, true, true)
  {
    var t := HandlerRestored(env, h);
    var s0 := FirstRun(Cleaning(Kill), 1, true, h, h, NEW);
    var s1 := FirstRun(Cleaning(Kill), 1, true, h, h, Alive(true, false)).(pending := {1});
    var s2 := FirstRun(Idle, 1, true, h, h, Alive(true, false));
    SendStep(env, s0, false);
    assert StepTo(env, s1, Deliver, s2);
    t := Follow(env, h, Begin(true, true), t, [s0, s1, s2], [ChildSends(1), Deliver]);
    assert s2.childPid == 1;
  }

  /** Without a time-out no child is ever forked. */
  ghost predicate UntimedInv(s: State) {
    s.childPid == 0 && s.procs == map[] && s.pending == {} && s.nested == [] && !s.timed
    && !s.pc.Save? && !s.pc.Install? && !s.pc.Fork? && !s.pc.Store?
    && (s.pc.Cleaning? ==> Harmless(s.pc.c))
  }

  lemma {:induction false} UntimedRunsKeepInv(env: Environment, s: State, trace: seq<Action>, s': State)
    requires UntimedInv(s) && OneRun(trace) && Runs(env, s, trace, s')
    ensures UntimedInv(s')
    decreases |trace|
  {
    if trace != [] {
      UntimedRunsKeepInv(env, Apply(s, trace[0]), trace[1..], s');
    }
  }

  /** Exactly when a run can be relied on to leave nothing behind, whatever the interleaving: it is untimed, or
      no signal is handled in the window, the function has a `__name__`, and the handler in force at
      entry does not raise. */
  lemma CleanExactly(env: Environment, h: Handler, timed: bool, named: bool)
    ensures AlwaysClean(env, h, timed, named) <==> !timed || (!env.window && named && Quiet(h))
  {
    var b := Begin(timed, named);
    if !timed {
      forall trace, s | OneRun(trace) && Runs(env, Init(h), [b] + trace, s) && s.pc.Idle?
        ensures Clean(s)
      {
        assert ([b] + trace)[1..] == trace;
        UntimedRunsKeepInv(env, Apply(Init(h), b), trace, s);
      }
    } else if env.window {
      LeakInWindow(env, h, named);
    } else if !named {
      LeakUnnamed(env, h);
    } else if !Quiet(h) {
      LeakRaisingHandler(env, h);
    } else {
      forall trace, s | OneRun(trace) && Runs(env, Init(h), [b] + trace, s) && s.pc.Idle?
        ensures Clean(s)
      {
        CleanOutsideRun(env, h, [b] + trace, s);
      }
    }
  }

  // ----- Theorem 2: every run ends -----

  /** Every action but the caller's own decreases this measure. */
  function Rank(s: State): nat {
    40 * (if s.own in s.procs && s.procs[s.own].Alive? && !s.procs[s.own].sent then 2 else 0)
    + 40 * (if s.pending != {} then 1 else 0)
    + (if s.own in s.procs && s.procs[s.own].Alive? then 1 else 0)
    + FramesRank(s.nested) + PcRank(s.pc)
  }

  function CleanupRank(c: Cleanup): nat {
    match c
    case Log => 8
    case Guard => 7
    case Restore => 6
    case Kill => 5
    case Wait => 4
    case Clear => 3
    case LogChildren => 2
    case Done => 1
  }

  function FramesRank(frames: seq<Cleanup>): nat
    decreases |frames|
  {
    if frames == [] then 0 else CleanupRank(Last(frames)) + FramesRank(Front(frames))
  }

  function PcRank(pc: Pc): nat {
    match pc
    case Idle => 0
    case Cleaning(c) => CleanupRank(c)
    case Leaving => 9
    case Func => 10
    case Announce => 11
    case Store => 12
    case Fork => 100
    case Install => 101
    case Save => 102
    case Reset => 103
  }

  lemma PushRank(frames: seq<Cleanup>, c: Cleanup)
    ensures FramesRank(frames + [c]) == CleanupRank(c) + FramesRank(frames)
  {
    assert Front(frames + [c]) == frames;
  }

  lemma {:induction false} UnwindDescends(frames: seq<Cleanup>, attribute: bool)
    ensures FramesRank(Unwind(frames, attribute)) <= FramesRank(frames)
    decreases |frames|
  {
    if frames != [] {
      if attribute && Last(frames) == Log {
        PushRank(Front(frames), Guard);
      } else {
        UnwindDescends(Front(frames), attribute);
      }
    }
  }

  lemma ThrowDescends(s: State, attribute: bool)
    ensures FramesRank(Throw(s, attribute).nested) + PcRank(Throw(s, attribute).pc)
            <= FramesRank(s.nested) + PcRank(s.pc)
    ensures s.nested == [] && s.pc.Announce? ==>
              FramesRank(Throw(s, attribute).nested) + PcRank(Throw(s, attribute).pc)
              < FramesRank(s.nested) + PcRank(s.pc)
  {
    UnwindDescends(s.nested, attribute);
  }

  lemma RaiseDescends(env: Environment, s: State)
    requires s.nested != [] && Last(s.nested) == Done
    ensures Rank(Apply(s, Parent)) < Rank(s)
  {
    var t := s.(nested := Front(s.nested));
    ThrowDescends(t, !s.named);
    ThrowUnwinds(t, !s.named);
    var u := Throw(t, !s.named);
    assert u.own == s.own && u.procs == s.procs && u.pending == s.pending;
    assert Apply(s, Parent) == u;
  }

  /** A statement of `cleanup` never revives a child or makes it forget that it has sent its signal. */
  lemma CleanupStepCalms(s: State, c: Cleanup)
    requires c != Done
    ensures var (t, c') := CleanupStep(s, c);
            && CleanupRank(c') < CleanupRank(c)
            && t.own == s.own && t.pending == s.pending && t.nested == s.nested && t.pc == s.pc
            && t.procs.Keys == s.procs.Keys
            && forall p :: p in t.procs && t.procs[p].Alive? ==> s.procs[p].Alive? && t.procs[p].sent == s.procs[p].sent
  {
  }

  lemma NestedStepDescends(env: Environment, s: State)
    requires s.nested != []
    ensures Rank(Apply(s, Parent)) < Rank(s)
  {
    if Last(s.nested) == Done {
      RaiseDescends(env, s);
    } else {
      CleanupStepCalms(s, Last(s.nested));
      var (u, c) := CleanupStep(s, Last(s.nested));
      PushRank(Front(s.nested), c);
      assert Apply(s, Parent) == u.(nested := Front(s.nested) + [c]);
    }
  }

  lemma MainCleanupDescends(s: State)
    requires s.nested == [] && s.pc.Cleaning? && s.pc.c != Done
    ensures Rank(Apply(s, Parent)) < Rank(s)
  {
    CleanupStepCalms(s, s.pc.c);
    var (u, c) := CleanupStep(s, s.pc.c);
    assert Apply(s, Parent) == u.(pc := Cleaning(c));
  }

  lemma AnnounceDescends(s: State)
    requires s.nested == [] && s.pc.Announce?
    ensures Rank(Apply(s, Parent)) < Rank(s)
  {
    ThrowDescends(s, true);
    ThrowUnwinds(s, true);
  }

  lemma ForkDescends(s: State)
    requires s.nested == [] && s.pc.Fork? && s.own !in s.procs
    ensures Rank(Apply(s, Parent)) < Rank(s)
  {
  }

  lemma MainStepDescends(env: Environment, s: State)
    requires Inv(s) && Enabled(env, s, Parent) && s.nested == []
    ensures Rank(Apply(s, Parent)) < Rank(s)
  {
    match s.pc
    case Announce => AnnounceDescends(s);
    case Fork => ForkDescends(s);
    case Cleaning(c) => if c != Done { MainCleanupDescends(s); }
    case _ =>
  }

  lemma ChildStepDescends(env: Environment, s: State, a: Action)
    requires Inv(s) && Enabled(env, s, a) && (a.ChildSends? || a.ChildExits?)
    ensures Rank(Apply(s, a)) < Rank(s)
  {
    var t := Apply(s, a);
    assert a.pid == s.own;
    assert t.nested == s.nested && t.pc == s.pc && t.own == s.own;
  }

  lemma EnterRank(s: State)
    ensures Rank(s.(nested := s.nested + [Log])) == Rank(s) + 8
  {
    PushRank(s.nested, Log);
  }

  lemma HandledRank(s: State)
    requires s.pending != {}
    ensures Rank(s.(pending := {})) == Rank(s) - 40
  {
  }

  lemma DeliveryEnters(s: State)
    requires Quiet(s.handler)
    ensures var t := s.(pending := {});
            Apply(s, Deliver) == if s.handler == TimedOut then t.(nested := t.nested + [Log]) else t
  {
  }

  lemma DeliveryDescends(s: State)
    requires Quiet(s.handler) && s.pending != {}
    ensures Rank(Apply(s, Deliver)) < Rank(s)
  {
    DeliveryEnters(s);
    HandledRank(s);
    EnterRank(s.(pending := {}));
  }

  lemma StepDescends(env: Environment, s: State, a: Action)
    requires Inv(s) && Enabled(env, s, a) && !ByCaller(a)
    ensures Rank(Apply(s, a)) < Rank(s)
  {
    match a
    case Parent =>
      if s.nested != [] {
        NestedStepDescends(env, s);
      } else {
        MainStepDescends(env, s);
      }
    case Deliver => DeliveryDescends(s);
    case FuncRaises => assert Apply(s, a) == s.(pc := Leaving);
    case ChildSends(_) => ChildStepDescends(env, s, a);
    case ChildExits(_) => ChildStepDescends(env, s, a);
  }

  /** A run, with everything its child and its handlers do, takes a bounded number of steps. */
  lemma {:induction false} RunsAreBounded(env: Environment, s: State, trace: seq<Action>, s': State)
    requires !env.window
    requires Inv(s) && OneRun(trace) && Runs(env, s, trace, s')
    ensures |trace| + Rank(s') <= Rank(s)
    decreases |trace|
  {
    if trace != [] {
      StepDescends(env, s, trace[0]);
      StepKeepsInv(env, s, trace[0]);
      RunsAreBounded(env, Apply(s, trace[0]), trace[1..], s');
    }
  }

  /** No deadlock: until the run has left, some step of the parent, of its child or of a handler is possible. */
  lemma NeverStuck(env: Environment, s: State)
    requires Inv(s) && (!s.pc.Idle? || s.nested != [])
    ensures exists a :: !ByCaller(a) && Enabled(env, s, a)
  {
    if Top(s) == Wait && !MayWait(s) {
      assert Enabled(env, s, ChildExits(s.childPid));
    } else if AboutToLeave(s) && s.pending != {} {
      assert Enabled(env, s, Deliver);
    } else {
      assert Enabled(env, s, Parent);
    }
  }

  /** A run that can go no further has left, and left nothing behind. */
  lemma EveryRunLeavesCleanly(env: Environment, h: Handler, trace: seq<Action>, s: State)
    requires !env.window && Quiet(h)
    requires DisciplinedTrace(trace) && Runs(env, Init(h), trace, s)
    requires forall a :: Enabled(env, s, a) ==> ByCaller(a)
    ensures s.pc.Idle? && Clean(s)
  {
    RunsKeepInv(env, Init(h), trace, s);
    if !s.pc.Idle? || s.nested != [] {
      NeverStuck(env, s);
    }
  }

  // ----- Theorem 3: whose time-out it is, and which handler is left in force -----

  /** The current run's child has sent its one signal. */
  predicate SignalSent(s: State) {
    s.own in s.procs && (s.procs[s.own].Alive? ==> s.procs[s.own].sent)
  }

  ghost predicate PromptInv(s: State) {
    && (forall p :: p in s.pending ==> p == s.own && s.own != 0 && !s.pc.Idle?)
    && (s.pending != {} ==> SignalSent(s))
    && (s.nested != [] ==> |s.nested| == 1 && s.own != 0 && !s.pc.Idle? && s.pending == {} && SignalSent(s))
  }

  ghost predicate HandlerInv(s: State) {
    && (s.pc.Reset? || s.pc.Save? ==> s.handler == s.entry)
    && (s.pc.Install? ==> s.handler == s.original == s.entry)
    && (s.pc.Fork? || s.pc.Store? ==> s.original == s.entry)
    && (TimerStarted(s.pc) && s.own == 0 ==> s.handler == s.entry && !s.timed)
    && (TimerStarted(s.pc) && s.own != 0 ==>
          && s.original == s.entry
          && (s.handler == TimedOut || s.handler == LeftBehind(s.entry))
          && (s.childPid == 0 || Top(s) in {Kill, Wait, Clear} ==> s.handler == LeftBehind(s.entry)))
  }

  /** A signal that is not yet handled comes from the run in progress. */
  lemma PendingIsOwn(s: State)
    requires Inv(s) && PromptInv(s) && s.pending != {}
    ensures s.pending == {s.own} && s.own != 0 && !s.pc.Idle? && s.nested == []
  {
    forall p | p in s.pending
      ensures p == s.own
    {
    }
    var q :| q in s.pending;
  }

  /** What leaving a run means for the handler: the one found at entry, or what a forked run leaves of SIG_DFL. */
  predicate LeavesHandler(s: State, t: State) {
    !s.pc.Idle? && t.pc.Idle? ==> t.handler == if s.own != 0 then LeftBehind(s.entry) else s.entry
  }

  lemma NestedKeepsPrompt(env: Environment, s: State)
    requires Inv(s) && PromptInv(s) && HandlerInv(s) && Enabled(env, s, Parent) && s.nested != []
    ensures PromptInv(Apply(s, Parent)) && HandlerInv(Apply(s, Parent)) && LeavesHandler(s, Apply(s, Parent))
  {
    var t := s.(nested := Front(s.nested));
    if Last(s.nested) == Done {
      ThrowUnwinds(t, !s.named);
      assert t.nested == [];
    } else {
      assert Front(s.nested) == [];
    }
  }

  lemma CleanupKeepsPrompt(env: Environment, s: State)
    requires !env.window && env.prompt
    requires Inv(s) && PromptInv(s) && HandlerInv(s) && Enabled(env, s, Parent) && s.nested == [] && s.pc.Cleaning?
    ensures PromptInv(Apply(s, Parent)) && HandlerInv(Apply(s, Parent)) && LeavesHandler(s, Apply(s, Parent))
  {
  }

  lemma MainKeepsPrompt(env: Environment, s: State)
    requires !env.window && env.prompt
    requires Inv(s) && PromptInv(s) && HandlerInv(s) && Enabled(env, s, Parent) && s.nested == [] && !s.pc.Cleaning?
    ensures PromptInv(Apply(s, Parent)) && HandlerInv(Apply(s, Parent)) && LeavesHandler(s, Apply(s, Parent))
  {
  }

  lemma ParentKeepsPrompt(env: Environment, s: State)
    requires !env.window && env.prompt
    requires Inv(s) && PromptInv(s) && HandlerInv(s) && Enabled(env, s, Parent)
    ensures PromptInv(Apply(s, Parent)) && HandlerInv(Apply(s, Parent)) && LeavesHandler(s, Apply(s, Parent))
  {
    if s.nested != [] {
      NestedKeepsPrompt(env, s);
    } else if s.pc.Cleaning? {
      CleanupKeepsPrompt(env, s);
    } else {
      MainKeepsPrompt(env, s);
    }
  }

  lemma StepKeepsPrompt(env: Environment, s: State, a: Action)
    requires !env.window && env.prompt
    requires Inv(s) && PromptInv(s) && HandlerInv(s) && Enabled(env, s, a) && Disciplined(a)
    ensures PromptInv(Apply(s, a)) && HandlerInv(Apply(s, a)) && LeavesHandler(s, Apply(s, a))
  {
    if s.pending != {} {
      PendingIsOwn(s);
    }
    match a
    case Parent => ParentKeepsPrompt(env, s);
    case _ =>
  }

  lemma {:induction false} RunsKeepPrompt(env: Environment, s: State, trace: seq<Action>, s': State)
    requires !env.window && env.prompt
    requires Inv(s) && PromptInv(s) && HandlerInv(s)
    requires DisciplinedTrace(trace) && Runs(env, s, trace, s')
    ensures Inv(s') && PromptInv(s') && HandlerInv(s')
    decreases |trace|
  {
    if trace != [] {
      StepKeepsInv(env, s, trace[0]);
      StepKeepsPrompt(env, s, trace[0]);
      RunsKeepPrompt(env, Apply(s, trace[0]), trace[1..], s');
    }
  }

  /** A signal is only ever handled during the run whose own child sent it, and never inside another handler. */
  lemma TimeOutIsOwn(env: Environment, h: Handler, trace: seq<Action>, s: State)
    requires !env.window && env.prompt && Quiet(h)
    requires DisciplinedTrace(trace) && Runs(env, Init(h), trace, s)
    requires Enabled(env, s, Deliver)
    ensures s.pending == {s.own} && s.own != 0 && !s.pc.Idle? && s.nested == []
  {
    RunsKeepPrompt(env, Init(h), trace, s);
    PendingIsOwn(s);
  }

  /** At the step that leaves a run, the handler found at entry is in force again; only if that was SIG_DFL does a
      run that forked leave `timed_out` in its place, which every later run then preserves. */
  lemma HandlerAtExit(env: Environment, h: Handler, trace: seq<Action>, s: State, a: Action)
    requires !env.window && env.prompt && Quiet(h)
    requires DisciplinedTrace(trace) && Runs(env, Init(h), trace, s)
    requires Enabled(env, s, a) && Disciplined(a) && !s.pc.Idle? && Apply(s, a).pc.Idle?
    ensures s.entry != Default || s.own == 0 ==> Apply(s, a).handler == s.entry
    ensures s.entry == Default && s.own != 0 ==> Apply(s, a).handler == TimedOut
  {
    RunsKeepPrompt(env, Init(h), trace, s);
    StepKeepsPrompt(env, s, a);
  }

  /** Along the execution, wherever a signal could be handled, it is during the run whose own child sent it. */
  ghost predicate OnlyOwnTimeOuts(env: Environment, h: Handler, trace: seq<Action>) {
    forall i: nat, s :: i <= |trace| && Runs(env, Init(h), trace[..i], s) && Enabled(env, s, Deliver)
                        ==> s.pending == {s.own} && s.own != 0 && !s.pc.Idle?
  }

  /** Along the execution no run is left while a signal is unhandled. */
  ghost predicate NoneOutlivesItsRun(env: Environment, h: Handler, trace: seq<Action>) {
    forall i: nat, s :: i <= |trace| && Runs(env, Init(h), trace[..i], s) && s.pc.Idle? ==> s.pending == {}
  }

  lemma {:induction false} LastStep(env: Environment, s: State, trace: seq<Action>, a: Action, s': State)
    returns (mid: State)
    requires Runs(env, s, trace + [a], s')
    ensures Runs(env, s, trace, mid) && Enabled(env, mid, a) && Apply(mid, a) == s'
    decreases |trace|
  {
    if trace == [] {
      assert ([] + [a])[1..] == [];
      mid := s;
    } else {
      assert (trace + [a])[1..] == trace[1..] + [a];
      mid := LastStep(env, Apply(s, trace[0]), trace[1..], a, s');
    }
  }

  /** An execution that leaves no signal behind is one that prompt delivery allows. */
  lemma {:induction false} NoneOutlivesIsPrompt(env: Environment, h: Handler, trace: seq<Action>, i: nat, s: State)
    requires NoneOutlivesItsRun(env, h, trace) && i <= |trace| && Runs(env, Init(h), trace[..i], s)
    ensures Runs(env.(prompt := true), Init(h), trace[..i], s)
    decreases i
  {
    if i > 0 {
      var a := trace[i - 1];
      assert trace[..i] == trace[..i - 1] + [a];
      var mid := LastStep(env, Init(h), trace[..i - 1], a, s);
      NoneOutlivesIsPrompt(env, h, trace, i - 1, mid);
      if a.Parent? && AboutToLeave(mid) {
        assert s == mid.(pc := Idle);
      }
      Extend(env.(prompt := true), Init(h), trace[..i - 1], mid, a);
    }
  }

  /** Exactly when every time-out that an execution could hand out belongs to the run that asked for it: no run of it is
      left while a signal is unhandled.  This holds for each execution by itself, whatever is assumed of delivery. */
  lemma TimeOutsAreOwnExactly(env: Environment, h: Handler, trace: seq<Action>, last: State)
    requires !env.window && Quiet(h)
    requires DisciplinedTrace(trace) && Runs(env, Init(h), trace, last)
    ensures OnlyOwnTimeOuts(env, h, trace) <==> NoneOutlivesItsRun(env, h, trace)
  {
    if OnlyOwnTimeOuts(env, h, trace) {
      forall i: nat, s | i <= |trace| && Runs(env, Init(h), trace[..i], s) && s.pc.Idle?
        ensures s.pending == {}
      {
        RunsKeepInv(env, Init(h), trace[..i], s);
        assert s.pending != {} ==> Enabled(env, s, Deliver);
      }
    }
    if NoneOutlivesItsRun(env, h, trace) {
      forall i: nat, s | i <= |trace| && Runs(env, Init(h), trace[..i], s) && Enabled(env, s, Deliver)
        ensures s.pending == {s.own} && s.own != 0 && !s.pc.Idle?
      {
        NoneOutlivesIsPrompt(env, h, trace, i, s);
        TimeOutIsOwn(env.(prompt := true), h, trace[..i], s);
      }
    }
  }

  /** The killed child sends its signal on the point of death, and is reaped before the signal is handled. */
  lemma UnheardChain(env: Environment, h: Handler) returns (states: seq<State>, actions: seq<Action>)
    ensures Chain(env, states, actions)
    ensures states[0] == FirstRun(Cleaning(Kill), 1, true, h, TimedOut, NEW)
    ensures states[|actions|] == FirstRun(Cleaning(Clear), 1, true, h, TimedOut, Reaped).(pending := {1})
  {
    var s0 := FirstRun(Cleaning(Kill), 1, true, h, TimedOut, NEW);
    var s1 := FirstRun(Cleaning(Wait), 1, true, h, TimedOut, Alive(false, true));
    var s2 := FirstRun(Cleaning(Wait), 1, true, h, TimedOut, Alive(true, true)).(pending := {1});
    var s3 := FirstRun(Cleaning(Wait), 1, true, h, TimedOut, Zombie).(pending := {1});
    var s4 := FirstRun(Cleaning(Clear), 1, true, h, TimedOut, Reaped).(pending := {1});
    KillStep(env, s0);
    SendStep(env, s1, true);
    ExitStep(env, s2);
    ReapStep(env, s3);
    states, actions := [s0, s1, s2, s3, s4], [Parent, ChildSends(1), ChildExits(1), Parent];
  }

  /** A run whose child has been reaped while its signal is unhandled and its pid is still recorded. */
  lemma ReapedUnheard(env: Environment, h: Handler) returns (t: seq<Action>)
    requires LeftBehind(h) == TimedOut
    ensures Runs(env, Init(h), [Begin(true, true)] + t,
                 FirstRun(Cleaning(Clear), 1, true, h, TimedOut, Reaped).(pending := {1}))
    ensures OneRun(t)
  {
    t := HandlerRestored(env, h);
    var states, actions := UnheardChain(env, h);
    t := Follow(env, h, Begin(true, true), t, states, actions);
  }

  lemma KillStep(env: Environment, s: State)
    requires !s.dead && s.pc == Cleaning(Kill) && s.nested == [] && s.childPid == 1 && s.procs == map[1 := NEW]
    ensures StepTo(env, s, Parent, s.(pc := Cleaning(Wait), procs := map[1 := Alive(false, true)]))
  {
    assert s.procs[1 := Alive(false, true)] == map[1 := Alive(false, true)];
  }

  lemma ReapStep(env: Environment, s: State)
    requires !s.dead && s.pc == Cleaning(Wait) && s.nested == [] && s.childPid == 1 && s.procs == map[1 := Zombie]
    ensures StepTo(env, s, Parent, s.(pc := Cleaning(Clear), procs := map[1 := Reaped]))
  {
    assert s.procs[1 := Reaped] == map[1 := Reaped];
  }

  lemma ForgetStep(env: Environment, s: State)
    requires !s.dead && s.pc == Cleaning(Clear) && s.nested == []
    ensures StepTo(env, s, Parent, s.(pc := Cleaning(LogChildren), childPid := 0))
  {
  }

  lemma LeavingChain(env: Environment, s: State) returns (states: seq<State>, actions: seq<Action>)
    requires !env.prompt && !s.dead && s.pc == Cleaning(LogChildren) && s.nested == []
    ensures Chain(env, states, actions)
    ensures states[0] == s && states[|actions|] == s.(pc := Idle)
  {
    var s1, s2 := s.(pc := Cleaning(Done)), s.(pc := Idle);
    assert StepTo(env, s, Parent, s1);
    assert StepTo(env, s1, Parent, s2);
    states, actions := [s, s1, s2], [Parent, Parent];
  }

  /** A complete run after which its child's signal is still unhandled. */
  lemma UnheardRun(env: Environment) returns (t: seq<Action>)
    requires !env.prompt
    ensures Runs(env, Init(Default), [Begin(true, true)] + t,
                 FirstRun(Idle, 0, true, Default, TimedOut, Reaped).(pending := {1}))
    ensures OneRun(t)
  {
    t := ReapedUnheard(env, Default);
    var s0 := FirstRun(Cleaning(Clear), 1, true, Default, TimedOut, Reaped).(pending := {1});
    var s1 := FirstRun(Cleaning(LogChildren), 0, true, Default, TimedOut, Reaped).(pending := {1});
    ForgetStep(env, s0);
    t := Follow(env, Default, Begin(true, true), t, [s0, s1], [Parent]);
    var states, actions := LeavingChain(env, s1);
    t := Follow(env, Default, Begin(true, true), t, states, actions);
  }

  /** When a run can be left while a signal is unhandled, a later run receives it: a run that has not even forked its
      own child is told that it timed out. */
  lemma StrayTimeOut(env: Environment) returns (trace: seq<Action>, s: State)
    requires !env.prompt
    ensures DisciplinedTrace(trace) && Runs(env, Init(Default), trace, s)
    ensures s.pc.Reset? && s.own == 0 && s.handler == TimedOut && s.pending == {1} && Enabled(env, s, Deliver)
  {
    var b := Begin(true, true);
    var t := UnheardRun(env);
    var left := FirstRun(Idle, 0, true, Default, TimedOut, Reaped).(pending := {1});
    Extend(env, Init(Default), [b] + t, left, b);
    trace, s := ([b] + t) + [b], Apply(left, b);
  }

  /** Every signal ever handled is the current run's own, in every execution, exactly when delivery is prompt. */
  lemma OwnTimeOutsExactly(env: Environment)
    requires !env.window
    ensures (forall h, trace, s ::
               Quiet(h) && DisciplinedTrace(trace) && Runs(env, Init(h), trace, s) && Enabled(env, s, Deliver)
               ==> s.pending == {s.own})
            <==> env.prompt
  {
    if env.prompt {
      forall h, trace, s | && Quiet(h) && DisciplinedTrace(trace)
                           && Runs(env, Init(h), trace, s) && Enabled(env, s, Deliver)
        ensures s.pending == {s.own}
      {
        TimeOutIsOwn(env, h, trace, s);
      }
    } else {
      var trace, s := StrayTimeOut(env);
      assert 1 in s.pending && s.own != 1;
    }
  }

  // ----- Theorem 4: whether a child that has been waited for can be killed -----

  /** SIGKILL is about to go to a pid that has already been waited for. */
  predicate KillsReaped(s: State) {
    Top(s) == Kill && s.childPid in s.procs && s.procs[s.childPid].Reaped?
  }

  /** Once the current run's child has been reaped, only the statement that forgets its pid comes next, unless
      `timed_out` can still be called. */
  ghost predicate ForgetInv(s: State) {
    && (s.pc.Store? && s.own in s.procs ==> !s.procs[s.own].Reaped?)
    && (LeftBehind(s.entry) != TimedOut && s.own != 0 && !s.pc.Idle? && s.own in s.procs && s.procs[s.own].Reaped?
        ==> s.childPid == 0 || Top(s) == Clear)
  }

  lemma NestedKeepsForget(env: Environment, s: State)
    requires !env.window && env.prompt
    requires Inv(s) && PromptInv(s) && HandlerInv(s) && ForgetInv(s) && Enabled(env, s, Parent) && s.nested != []
    ensures ForgetInv(Apply(s, Parent))
  {
    var t := s.(nested := Front(s.nested));
    if Last(s.nested) == Done {
      ThrowUnwinds(t, !s.named);
    } else {
      assert Front(s.nested) == [];
    }
  }

  lemma MainKeepsForget(env: Environment, s: State)
    requires !env.window && env.prompt
    requires Inv(s) && PromptInv(s) && HandlerInv(s) && ForgetInv(s) && Enabled(env, s, Parent) && s.nested == []
    ensures ForgetInv(Apply(s, Parent))
  {
    if s.pc.Announce? && !s.named {
      ThrowUnwinds(s, true);
    }
  }

  lemma StepKeepsForget(env: Environment, s: State, a: Action)
    requires !env.window && env.prompt
    requires Inv(s) && PromptInv(s) && HandlerInv(s) && ForgetInv(s) && Enabled(env, s, a) && Disciplined(a)
    ensures ForgetInv(Apply(s, a))
  {
    match a
    case Parent =>
      if s.nested != [] {
        NestedKeepsForget(env, s);
      } else {
        MainKeepsForget(env, s);
      }
    case _ =>
  }

  lemma {:induction false} RunsKeepForget(env: Environment, s: State, trace: seq<Action>, s': State)
    requires !env.window && env.prompt
    requires Inv(s) && PromptInv(s) && HandlerInv(s) && ForgetInv(s)
    requires DisciplinedTrace(trace) && Runs(env, s, trace, s')
    ensures Inv(s') && ForgetInv(s')
    decreases |trace|
  {
    if trace != [] {
      StepKeepsInv(env, s, trace[0]);
      StepKeepsPrompt(env, s, trace[0]);
      StepKeepsForget(env, s, trace[0]);
      RunsKeepForget(env, Apply(s, trace[0]), trace[1..], s');
    }
  }

  /** A run that does not leave `timed_out` in force kills only a child that has not been waited for. */
  lemma KillsOnlyUnreaped(env: Environment, h: Handler, trace: seq<Action>, s: State)
    requires !env.window && env.prompt && Quiet(h)
    requires DisciplinedTrace(trace) && Runs(env, Init(h), trace, s)
    requires LeftBehind(s.entry) != TimedOut
    ensures !KillsReaped(s)
  {
    RunsKeepForget(env, Init(h), trace, s);
  }

  /** The signal is handled after its sender was reaped: the nested `cleanup` still finds the pid. */
  lemma ReenterChain(env: Environment, s: State) returns (states: seq<State>, actions: seq<Action>)
    requires !s.dead && s.pc == Cleaning(Clear) && s.nested == [] && s.handler == TimedOut && s.pending != {}
    ensures Chain(env, states, actions)
    ensures states[0] == s && states[|actions|] == s.(pending := {}, nested := [Guard])
  {
    var s1, s2 := s.(pending := {}, nested := [Log]), s.(pending := {}, nested := [Guard]);
    assert StepTo(env, s, Deliver, s1);
    assert Front([Log]) == [];
    assert StepTo(env, s1, Parent, s2);
    states, actions := [s, s1, s2], [Deliver, Parent];
  }

  lemma NestedGuardStep(env: Environment, s: State)
    requires !s.dead && s.nested == [Guard] && s.childPid != 0 && s.timed && !s.pc.Idle?
    ensures StepTo(env, s, Parent, s.(nested := [Restore]))
  {
    assert Front([Guard]) == [];
  }

  lemma NestedRestoreStep(env: Environment, s: State)
    requires !s.dead && s.nested == [Restore] && !s.pc.Idle?
    requires s.handler == TimedOut && LeftBehind(s.original) == TimedOut
    ensures StepTo(env, s, Parent, s.(nested := [Kill]))
  {
    assert Front([Restore]) == [];
  }

  /** The signal is handled, and the nested `cleanup` has found the pid. */
  lemma Reentered(env: Environment, h: Handler) returns (t: seq<Action>)
    requires LeftBehind(h) == TimedOut
    ensures Runs(env, Init(h), [Begin(true, true)] + t,
                 FirstRun(Cleaning(Clear), 1, true, h, TimedOut, Reaped).(nested := [Guard]))
    ensures OneRun(t)
  {
    t := ReapedUnheard(env, h);
    var s0 := FirstRun(Cleaning(Clear), 1, true, h, TimedOut, Reaped).(pending := {1});
    var states, actions := ReenterChain(env, s0);
    t := Follow(env, h, Begin(true, true), t, states, actions);
  }

  /** From SIG_DFL, and from a `timed_out` that an earlier run left, the handler stays in force to the end: a signal
      handled between `waitpid` and the reset of the pid makes the nested `cleanup` kill the reaped child's pid. */
  lemma ReapedChildKilled(env: Environment, h: Handler) returns (t: seq<Action>, s: State)
    requires LeftBehind(h) == TimedOut
    ensures OneRun(t) && Runs(env, Init(h), [Begin(true, true)] + t, s) && KillsReaped(s)
  {
    t := Reentered(env, h);
    var s1 := FirstRun(Cleaning(Clear), 1, true, h, TimedOut, Reaped).(nested := [Guard]);
    var s2 := s1.(nested := [Restore]);
    s := s1.(nested := [Kill]);
    NestedGuardStep(env, s1);
    NestedRestoreStep(env, s2);
    t := Follow(env, h, Begin(true, true), t, [s1, s2, s], [Parent, Parent]);
    assert Top(s) == Kill && s.procs[1] == Reaped;
  }

  /** Exactly when no run from the given handler can send SIGKILL to a pid already waited for: the handler it leaves
      in force is not `timed_out`. */
  lemma NeverKillsReapedExactly(env: Environment, h: Handler)
    requires !env.window && env.prompt && Quiet(h)
    ensures (forall trace, s :: OneRun(trace) && Runs(env, Init(h), [Begin(true, true)] + trace, s) ==> !KillsReaped(s))
            <==> LeftBehind(h) != TimedOut
  {
    var b := Begin(true, true);
    if LeftBehind(h) == TimedOut {
      var t, s := ReapedChildKilled(env, h);
      assert KillsReaped(s);
    } else {
      forall trace, s | OneRun(trace) && Runs(env, Init(h), [b] + trace, s)
        ensures !KillsReaped(s)
      {
        EntryStays(env, Apply(Init(h), b), trace, s);
        assert ([b] + trace)[1..] == trace;
        KillsOnlyUnreaped(env, h, [b] + trace, s);
      }
    }
  }

  /** Within one run the handler found at entry is remembered. */
  lemma {:induction false} EntryStays(env: Environment, s: State, trace: seq<Action>, s': State)
    requires OneRun(trace) && Runs(env, s, trace, s')
    ensures s'.entry == s.entry
    decreases |trace|
  {
    if trace != [] {
      EntryIsKept(s, trace[0]);
      EntryStays(env, Apply(s, trace[0]), trace[1..], s');
    }
  }

  lemma CleanupStepKeepsEntry(s: State, c: Cleanup)
    ensures CleanupStep(s, c).0.entry == s.entry
  {
  }

  lemma ThrowKeepsEntry(s: State, attribute: bool)
    ensures Throw(s, attribute).entry == s.entry
  {
  }

  lemma NestedKeepsEntry(s: State)
    requires s.nested != []
    ensures Apply(s, Parent).entry == s.entry
  {
    if Last(s.nested) == Done {
      ThrowKeepsEntry(s.(nested := Front(s.nested)), !s.named);
    } else {
      CleanupStepKeepsEntry(s, Last(s.nested));
    }
  }

  lemma MainKeepsEntry(s: State)
    requires s.nested == []
    ensures Apply(s, Parent).entry == s.entry
  {
    match s.pc
    case Announce => ThrowKeepsEntry(s, true);
    case Cleaning(c) => CleanupStepKeepsEntry(s, c);
    case _ =>
  }

  lemma EntryIsKept(s: State, a: Action)
    requires !ByCaller(a)
    ensures Apply(s, a).entry == s.entry
  {
    match a
    case Parent => if s.nested != [] { NestedKeepsEntry(s); } else { MainKeepsEntry(s); }
    case Deliver => ThrowKeepsEntry(s.(pending := {}), false);
    case _ =>
  }

  // ----- Theorem 5: what a time-out does to the run -----

  /** The run of a named function cannot reach the function any more: once no handler is active it has been left. */
  predicate Ending(s: State) {
    s.named && !s.pc.Func? && (s.nested == [] ==> s.pc.Idle?)
  }

  lemma ThrowKeepsEnding(s: State)
    requires s.named && !s.pc.Func?
    ensures Ending(Throw(s, false))
  {
    ThrowUnwinds(s, false);
  }

  lemma StepKeepsEnding(env: Environment, s: State, a: Action)
    requires Ending(s) && Enabled(env, s, a) && !ByCaller(a)
    ensures Ending(Apply(s, a))
  {
    ThrowKeepsEnding(s.(pending := {}));
    if s.nested != [] {
      ThrowKeepsEnding(s.(nested := Front(s.nested)));
    }
  }

  lemma {:induction false} RunsKeepEnding(env: Environment, s: State, trace: seq<Action>, s': State)
    requires Ending(s) && OneRun(trace) && Runs(env, s, trace, s')
    ensures Ending(s')
    decreases |trace|
  {
    if trace != [] {
      StepKeepsEnding(env, s, trace[0]);
      RunsKeepEnding(env, Apply(s, trace[0]), trace[1..], s');
    }
  }

  /** A time-out handled at any statement but the call of the function ends the run: in every execution, once
      `timed_out` has been entered there the function is never called, and whenever no handler is active the run has
      been left. */
  lemma TimeOutEndsRun(env: Environment, h: Handler, before: seq<Action>, mid: State, after: seq<Action>, s: State)
    requires Runs(env, Init(h), before, mid) && mid.named
    requires Enabled(env, mid, Deliver) && mid.handler == TimedOut && !mid.pc.Func?
    requires OneRun(after) && Runs(env, mid, [Deliver] + after, s)
    ensures !s.pc.Func? && (s.nested == [] ==> s.pc.Idle?)
  {
    assert ([Deliver] + after)[1..] == after;
    RunsKeepEnding(env, Apply(mid, Deliver), after, s);
  }

  /** The exception is on its way into the caller's function, or has reached it. */
  predicate Striking(s: State) {
    && s.named && (s.nested == [] ==> s.struck)
    && (s.nested != [] && !s.struck ==> s.pc.Func?)
    && (s.pc.Func? || s.pc.Leaving? || s.pc.Cleaning? || s.pc.Idle?)
  }

  lemma ThrowKeepsStriking(s: State)
    requires s.named && (s.pc.Func? || s.struck)
    requires s.pc.Func? || s.pc.Leaving? || s.pc.Cleaning? || s.pc.Idle?
    ensures Striking(Throw(s, false))
  {
    UnwindLeavesAll(s.nested);
  }

  lemma StepKeepsStriking(env: Environment, s: State, a: Action)
    requires Striking(s) && Enabled(env, s, a) && !ByCaller(a)
    ensures Striking(Apply(s, a))
  {
    ThrowKeepsStriking(s.(pending := {}));
    if s.nested != [] {
      ThrowKeepsStriking(s.(nested := Front(s.nested)));
    }
  }

  lemma {:induction false} RunsKeepStriking(env: Environment, s: State, trace: seq<Action>, s': State)
    requires Striking(s) && OneRun(trace) && Runs(env, s, trace, s')
    ensures Striking(s')
    decreases |trace|
  {
    if trace != [] {
      StepKeepsStriking(env, s, trace[0]);
      RunsKeepStriking(env, Apply(s, trace[0]), trace[1..], s');
    }
  }

  /** A time-out handled during the call of the function is an exception raised inside it: in every execution, once
      `timed_out` has been left the function has been struck, and it is not called again. */
  lemma TimeOutStrikesFunction(env: Environment, h: Handler, before: seq<Action>, mid: State, after: seq<Action>,
                               s: State)
    requires Runs(env, Init(h), before, mid) && mid.named
    requires Enabled(env, mid, Deliver) && mid.handler == TimedOut && mid.pc.Func?
    requires OneRun(after) && Runs(env, mid, [Deliver] + after, s)
    ensures s.nested == [] ==> s.struck
    ensures s.pc.Func? || s.pc.Leaving? || s.pc.Cleaning? || s.pc.Idle?
  {
    assert ([Deliver] + after)[1..] == after;
    RunsKeepStriking(env, Apply(mid, Deliver), after, s);
  }

  /** No handler is active, and no timer either. */
  ghost predicate Unarmed(s: State) {
    Inv(s) && Striking(s) && (s.nested == [] ==> s.childPid == 0)
  }

  lemma StepKeepsUnarmed(env: Environment, s: State, a: Action)
    requires !env.window
    requires Unarmed(s) && Enabled(env, s, a) && !ByCaller(a)
    ensures Unarmed(Apply(s, a))
  {
    StepKeepsInv(env, s, a);
    StepKeepsStriking(env, s, a);
    if s.nested != [] && Last(s.nested) == Done {
      ThrowUnwinds(s.(nested := Front(s.nested)), !s.named);
    }
  }

  lemma {:induction false} RunsKeepUnarmed(env: Environment, s: State, trace: seq<Action>, s': State)
    requires !env.window
    requires Unarmed(s) && OneRun(trace) && Runs(env, s, trace, s')
    ensures Unarmed(s')
    decreases |trace|
  {
    if trace != [] {
      StepKeepsUnarmed(env, s, trace[0]);
      RunsKeepUnarmed(env, Apply(s, trace[0]), trace[1..], s');
    }
  }

  /** From then on the function, should it handle the exception, has no timer: its child has been reaped. */
  lemma StruckFunctionHasNoTimer(env: Environment, h: Handler, before: seq<Action>, mid: State, after: seq<Action>,
                                 s: State)
    requires !env.window && Quiet(h) && DisciplinedTrace(before)
    requires Runs(env, Init(h), before, mid) && mid.named
    requires Enabled(env, mid, Deliver) && mid.handler == TimedOut && mid.pc.Func?
    requires OneRun(after) && Runs(env, mid, [Deliver] + after, s)
    ensures s.nested == [] ==> s.childPid == 0 && forall p :: p in s.procs ==> s.procs[p].Reaped?
  {
    RunsKeepInv(env, Init(h), before, mid);
    StepKeepsInv(env, mid, Deliver);
    assert ([Deliver] + after)[1..] == after;
    RunsKeepUnarmed(env, Apply(mid, Deliver), after, s);
  }

  /** The statements before the call of the function. */
  predicate BeforeFunc(pc: Pc) {
    pc.Reset? || pc.Save? || pc.Install? || pc.Fork? || pc.Store? || pc.Announce?
  }

  lemma StepTowardsFunc(env: Environment, s: State, a: Action)
    requires BeforeFunc(s.pc) && s.named && s.nested == []
    requires Enabled(env, s, a) && !ByCaller(a) && a != Deliver
    ensures var t := Apply(s, a);
            t.named && t.nested == [] && (BeforeFunc(t.pc) || t.pc.Func?)
  {
  }

  /** A run that is not interrupted by a signal calls its function on the way out. */
  lemma {:induction false} FunctionIsCalled(env: Environment, s: State, trace: seq<Action>, s': State)
    returns (i: nat, mid: State)
    requires BeforeFunc(s.pc) && s.named && s.nested == []
    requires OneRun(trace) && Deliver !in trace && Runs(env, s, trace, s') && !BeforeFunc(s'.pc)
    ensures i <= |trace| && Runs(env, s, trace[..i], mid) && mid.pc.Func? && mid.nested == []
    decreases |trace|
  {
    StepTowardsFunc(env, s, trace[0]);
    var t := Apply(s, trace[0]);
    var k := 0;
    mid := t;
    if !t.pc.Func? {
      k, mid := FunctionIsCalled(env, t, trace[1..], s');
    }
    i := k + 1;
    assert trace[..i][1..] == trace[1..][..k];
  }

  /** `waitpid` is never entered with a child that will live on: it has been killed or is dead. */
  lemma WaitsOnlyForKilled(env: Environment, h: Handler, trace: seq<Action>, s: State)
    requires !env.window && Quiet(h)
    requires DisciplinedTrace(trace) && Runs(env, Init(h), trace, s)
    requires Top(s) == Wait
    ensures s.childPid in s.procs && (s.procs[s.childPid].Alive? ==> s.procs[s.childPid].killed)
  {
    RunsKeepInv(env, Init(h), trace, s);
  }
}
