/**
`func_timer_class` as an object with fields, executed without interruption.

After every statement the fields are those of the transition system in `FuncTimer` one step on, so an undisturbed call
of `run` is shown to be one of that system's executions.
*/
module FuncTimerObject {

  import opened FuncTimer

  class FuncTimerClass {
    // The object's fields
    var childPid: nat
    var timed: bool
    var named: bool
    var original: Handler
    // The process
    var handler: Handler
    var procs: map<nat, Proc>
    var nextPid: nat
    // The execution of the transition system up to now
    ghost const env: Environment
    ghost const start: State
    ghost var trace: seq<Action>
    ghost var own: nat
    ghost var entry: Handler

    /** The state of the transition system whose parent stands at pc, with no signal pending. */
    ghost function Value(pc: Pc): State
      reads this
    {
      State(pc, [], childPid, timed, named, original, handler, procs, nextPid, {}, false, own, entry, false)
    }

    /** The statements executed so far are a trace that leads here. */
    ghost predicate At(pc: Pc)
      reads this
    {
      Runs(env, start, trace, Value(pc))
    }

    /** What has been executed since `before` belongs to one run: the caller has done nothing. */
    ghost predicate WithinRun(before: seq<Action>)
      reads this
    {
      before <= trace && forall i :: |before| <= i < |trace| ==> !ByCaller(trace[i])
    }

    constructor (handler: Handler, ghost env: Environment)
      ensures At(Idle) && trace == [] && start == Init(handler) && this.env == env
      ensures childPid == 0 && procs == map[] && nextPid == 1 && this.handler == handler
    {
      childPid, timed, named, original := 0, false, true, handler;
      this.handler, procs, nextPid := handler, map[], 1;
      this.env, start, trace, own, entry := env, Init(handler), [], 0, handler;
    }

    /** The statement just executed is the step a, from the state `before`. */
    ghost method Took(a: Action, before: State, pc: Pc)
      requires Runs(env, start, trace, before) && Enabled(env, before, a) && Apply(before, a) == Value(pc)
      modifies this`trace
      ensures At(pc) && trace == old(trace) + [a]
    {
      Extend(env, start, trace, before, a);
      trace := trace + [a];
    }

    /** `cleanup` */
    method Cleanup()
      requires At(Cleaning(Log)) && (childPid != 0 ==> childPid in procs && timed)
      modifies this`childPid, this`handler, this`procs, this`trace
      ensures At(Cleaning(Done)) && childPid == 0 && WithinRun(old(trace))
      ensures old(childPid) == 0 ==> handler == old(handler) && procs == old(procs)
      ensures old(childPid) != 0 ==>
                && handler == (if original == Default then old(handler) else original)
                && procs == old(procs)[old(childPid) := Reaped]
    {
      CheckChild();
      if childPid == 0 || !timed {
        return;
      }
      RestoreHandler();
      EndChild();
    }

    /** Kill the child, wait for it, and forget it. */
    method EndChild()
      requires At(Cleaning(Kill)) && childPid in procs
      modifies this`childPid, this`procs, this`trace
      ensures At(Cleaning(Done)) && childPid == 0 && WithinRun(old(trace))
      ensures procs == old(procs)[old(childPid) := Reaped]
    {
      KillChild();
      ReapChild();
      ForgetChild();
      ListChildren();
    }

    /** The guarded logging, and the test whether there is a child to clean up. */
    ghost method CheckChild()
      requires At(Cleaning(Log))
      modifies this`trace
      ensures At(Cleaning(if childPid == 0 || !timed then Done else Restore)) && WithinRun(old(trace))
    {
      Took(Parent, Value(Cleaning(Log)), Cleaning(Guard));
      Took(Parent, Value(Cleaning(Guard)), Cleaning(if childPid == 0 || !timed then Done else Restore));
    }

    /** Put the saved handler back, unless it compares equal to 0 as SIG_DFL does. */
    method RestoreHandler()
      requires At(Cleaning(Restore))
      modifies this`handler, this`trace
      ensures At(Cleaning(Kill)) && WithinRun(old(trace))
      ensures handler == if original == Default then old(handler) else original
    {
      ghost var before := Value(Cleaning(Restore));
      if original != Default {
        handler := original;
      }
      Took(Parent, before, Cleaning(Kill));
    }

    /** os.kill with SIGKILL */
    method KillChild()
      requires At(Cleaning(Kill)) && childPid in procs
      modifies this`procs, this`trace
      ensures At(Cleaning(Wait)) && WithinRun(old(trace))
      ensures procs.Keys == old(procs).Keys && forall p :: p in procs && p != childPid ==> procs[p] == old(procs)[p]
      ensures procs[childPid].Alive? ==> procs[childPid].killed
    {
      ghost var before := Value(Cleaning(Kill));
      if procs[childPid].Alive? {
        procs := procs[childPid := procs[childPid].(killed := true)];
      }
      Took(Parent, before, Cleaning(Wait));
    }

    /** os.waitpid, which returns when the killed child has died */
    method ReapChild()
      requires At(Cleaning(Wait)) && childPid in procs
      requires procs[childPid].Alive? ==> procs[childPid].killed
      modifies this`procs, this`trace
      ensures At(Cleaning(Clear)) && WithinRun(old(trace))
      ensures procs == old(procs)[childPid := Reaped]
    {
      if procs[childPid].Alive? {
        ghost var alive := Value(Cleaning(Wait));
        procs := procs[childPid := Zombie];
        Took(ChildExits(childPid), alive, Cleaning(Wait));
      }
      ghost var before := Value(Cleaning(Wait));
      procs := procs[childPid := Reaped];
      assert before.procs[childPid].Reaped? ==> procs == before.procs;
      Took(Parent, before, Cleaning(Clear));
    }

    method ForgetChild()
      requires At(Cleaning(Clear))
      modifies this`childPid, this`trace
      ensures At(Cleaning(LogChildren)) && childPid == 0 && WithinRun(old(trace))
    {
      ghost var before := Value(Cleaning(Clear));
      childPid := 0;
      Took(Parent, before, Cleaning(LogChildren));
    }

    /** List the remaining children. */
    ghost method ListChildren()
      requires At(Cleaning(LogChildren))
      modifies this`trace
      ensures At(Cleaning(Done)) && WithinRun(old(trace))
    {
      Took(Parent, Value(Cleaning(LogChildren)), Cleaning(Done));
    }

    method SaveHandler()
      requires At(Save)
      modifies this`original, this`trace
      ensures At(Install) && original == handler && WithinRun(old(trace))
    {
      ghost var saving := Value(Save);
      original := handler;
      Took(Parent, saving, Install);
    }

    method InstallHandler()
      requires At(Install)
      modifies this`handler, this`trace
      ensures At(Fork) && handler == TimedOut && WithinRun(old(trace))
    {
      ghost var installing := Value(Install);
      handler := TimedOut;
      Took(Parent, installing, Fork);
    }

    /** os.fork, in the parent */
    method ForkChild() returns (pid: nat)
      requires At(Fork) && nextPid !in procs
      modifies this`procs, this`nextPid, this`trace, this`own
      ensures At(Store) && own == pid == old(nextPid) && WithinRun(old(trace))
      ensures procs == old(procs)[pid := Alive(false, false)]
    {
      ghost var forking := Value(Fork);
      pid := nextPid;
      procs, nextPid := procs[pid := Alive(false, false)], pid + 1;
      own := pid;
      Took(Parent, forking, Store);
    }

    method StorePid(pid: nat)
      requires At(Store) && own == pid
      modifies this`childPid, this`trace
      ensures At(Announce) && childPid == pid && WithinRun(old(trace))
    {
      ghost var storing := Value(Store);
      childPid := pid;
      Took(Parent, storing, Announce);
    }

    /** Take over the function and its time-out. */
    method BeginRun(timed: bool, named: bool)
      requires At(Idle)
      modifies this`timed, this`named, this`trace, this`own, this`entry
      ensures At(Reset) && trace == old(trace) + [Begin(timed, named)]
      ensures this.timed == timed && this.named == named
    {
      ghost var idle := Value(Idle);
      this.timed, this.named := timed, named;
      own, entry := 0, handler;
      Took(Begin(timed, named), idle, Reset);
    }

    method ResetPid()
      requires At(Reset)
      modifies this`childPid, this`trace
      ensures At(if timed then Save else Announce) && childPid == 0 && WithinRun(old(trace))
    {
      ghost var resetting := Value(Reset);
      childPid := 0;
      Took(Parent, resetting, if timed then Save else Announce);
    }

    /** Announce the function.  Returns false if that raises. */
    method AnnounceFunction() returns (announced: bool)
      requires At(Announce)
      modifies this`trace
      ensures announced == named && WithinRun(old(trace))
      ensures At(if named then Func else Idle)
    {
      announced := named;
      Took(Parent, Value(Announce), if named then Func else Idle);
    }

    /** Call the function, which returns or raises. */
    method CallFunction(raises: bool)
      requires At(Func)
      modifies this`trace
      ensures At(Cleaning(Log)) && WithinRun(old(trace))
    {
      Took(if raises then FuncRaises else Parent, Value(Func), Leaving);
      Took(Parent, Value(Leaving), Cleaning(Log));
    }

    /** Set the timer: install the handler and fork the child, if there is a time-out. */
    method StartTimer()
      requires At(if timed then Save else Announce) && nextPid !in procs
      modifies this`original, this`handler, this`procs, this`nextPid, this`childPid, this`trace, this`own
      ensures At(Announce) && WithinRun(old(trace))
      ensures timed ==> original == old(handler) && handler == TimedOut
      ensures timed ==> childPid == old(nextPid) && procs == old(procs)[old(nextPid) := Alive(false, false)]
      ensures !timed ==> unchanged(`original, `handler, `procs, `nextPid, `childPid)
    {
      if timed {
        SaveHandler();
        InstallHandler();
        var pid := ForkChild();
        StorePid(pid);
      }
    }

    /** Call the function and clean up.  Announcing a function without a name raises, and skips the clean-up. */
    method CallAndCleanup(raises: bool)
      requires At(Announce) && (childPid != 0 ==> childPid in procs && timed && named)
      modifies this`childPid, this`handler, this`procs, this`trace
      ensures At(Idle) && childPid == 0 && WithinRun(old(trace))
      ensures old(childPid) == 0 ==> handler == old(handler) && procs == old(procs)
      ensures old(childPid) != 0 ==>
                && handler == (if original == Default then old(handler) else original)
                && procs == old(procs)[old(childPid) := Reaped]
    {
      var announced := AnnounceFunction();
      if announced {
        CallFunction(raises);
        Cleanup();
        Took(Parent, Value(Cleaning(Done)), Idle);
      }
    }

    /** `run`, when nothing interrupts it and the function returns or raises before its time is up: its statements are
        one run of the transition system, which goes on from all that was executed before.  It leaves nothing behind,
        and the handler found at entry is back in force unless that was SIG_DFL. */
    method Run(timed: bool, named: bool, raises: bool)
      requires At(Idle) && (timed ==> named) && nextPid > 0 && nextPid !in procs
      modifies this
      ensures At(Idle) && childPid == 0
      ensures WithinRun(old(trace) + [Begin(timed, named)])
      ensures handler == if timed then LeftBehind(old(handler)) else old(handler)
      ensures procs == if timed then old(procs)[old(nextPid) := Reaped] else old(procs)
    {
      BeginRun(timed, named);
      ResetPid();
      StartTimer();
      CallAndCleanup(raises);
    }
  }
}
