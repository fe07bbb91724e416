/**
Running a command over SSH: `find_connection`, `login_ssh` and the retry loop of `execute_ssh_command` in
gen_robot_ssh.py.

The SSH library is an object with a pool of connections.  What its calls come to is an arbitrary function of the
number of calls made so far, and every call is logged with its outcome.
*/
module SshRetry {

  import opened Options

  /** A connection and its configuration, both with values converted to strings. */
  datatype Connection = Connection(index: nat, alias: string, config: map<string, string>)

  datatype Output = Output(stdout: string, stderr: string, rc: int)

  datatype OpenOutcome = Opened | OpenFails(message: string)

  /** `NoSession` is the one login failure that is tolerated. */
  datatype LoginOutcome = LoggedIn | NoSession(message: string) | LoginFails(message: string)

  /** `NotOpen`: the connection is not open.  `Dropped`: the session is inactive or was reset, or its channel timed
      out. */
  datatype ExecOutcome =
    | Done(output: Output)
    | NotOpen(message: string)
    | Dropped(message: string)
    | Unhandled(message: string)

  datatype Event =
    | Switched(connection: Connection)
    | OpenCall(opening: OpenOutcome)
    | LoginCall(login: LoginOutcome)
    | ExecCall(execution: ExecOutcome)
    | ClosedAll

  /** How the function ends: a result, nothing for a forked command, or an exception. */
  datatype Reply = Result(output: Output) | Stdout(stdout: string) | Nothing | Raised(message: string)

  datatype Request = Request(
    openArgs: map<string, string>,   // without "timeout", values converted to strings
    alias: Option<string>,           // open_connection_args["alias"], if present
    fork: bool,
    ignoreErr: bool
  )

  const MAX_LOGIN_ATTEMPTS := 5
  const MAX_EXEC_CMD_ATTEMPTS := 2

  /** The configuration agrees with every search argument. */
  predicate SubMap(args: map<string, string>, config: map<string, string>) {
    forall k :: k in args ==> k in config && config[k] == args[k]
  }

  /** The test the source makes: overriding the configuration with the arguments changes nothing. */
  lemma OverrideChangesNothing(args: map<string, string>, config: map<string, string>)
    ensures config + args == config <==> SubMap(args, config)
  {
    if config + args == config {
      forall k | k in args
        ensures k in config && config[k] == args[k]
      {
        assert k in config + args && (config + args)[k] == args[k];
      }
    }
  }

  function LoginCalls(log: seq<Event>): nat
    decreases |log|
  {
    if log == [] then 0 else LoginCalls(log[..|log| - 1]) + if log[|log| - 1].LoginCall? then 1 else 0
  }

  function ExecCalls(log: seq<Event>): nat
    decreases |log|
  {
    if log == [] then 0 else ExecCalls(log[..|log| - 1]) + if log[|log| - 1].ExecCall? then 1 else 0
  }

  lemma LogOneMore(log: seq<Event>, e: Event)
    ensures LoginCalls(log + [e]) == LoginCalls(log) + if e.LoginCall? then 1 else 0
    ensures ExecCalls(log + [e]) == ExecCalls(log) + if e.ExecCall? then 1 else 0
  {
    assert (log + [e])[..|log|] == log;
  }

  /** The last event is a completed execution. */
  predicate EndsDone(log: seq<Event>) {
    log != [] && log[|log| - 1].ExecCall? && log[|log| - 1].execution.Done?
  }

  /** The first connection of the pool that agrees with the search arguments. */
  function FirstMatch(pool: seq<Connection>, args: map<string, string>): Option<Connection>
    decreases |pool|
  {
    if pool == [] then None
    else if SubMap(args, pool[0].config) then Some(pool[0])
    else FirstMatch(pool[1..], args)
  }

  /** No execution among the events from index n on. */
  predicate NoExec(log: seq<Event>, n: nat) {
    forall i :: n <= i < |log| ==> !log[i].ExecCall?
  }

  /** A completed execution, if there is one from index n on, is the last event. */
  predicate DoneIsLast(log: seq<Event>, n: nat) {
    forall i :: n <= i < |log| && log[i].ExecCall? && log[i].execution.Done? ==> i == |log| - 1
  }

  /** An unhandled execution error, if there is one from index n on, is followed by closing all connections and
      nothing else. */
  predicate UnhandledCloses(log: seq<Event>, n: nat) {
    forall i :: n <= i < |log| && log[i].ExecCall? && log[i].execution.Unhandled?
                ==> i == |log| - 2 && log[i + 1] == ClosedAll
  }

  /** A tolerated failure at index i is followed by its recovery: a login on the connection found closed, a new
      connection in place of all others for a dropped session. */
  predicate RecoveredAt(log: seq<Event>, i: nat)
    requires i < |log|
  {
    log[i].ExecCall? ==>
      && (log[i].execution.NotOpen? ==> i + 1 < |log| && log[i + 1].LoginCall?)
      && (log[i].execution.Dropped? ==> i + 2 < |log| && log[i + 1] == ClosedAll && log[i + 2].OpenCall?)
  }

  predicate Recoveries(log: seq<Event>, n: nat) {
    forall i :: n <= i < |log| ==> RecoveredAt(log, i)
  }

  predicate Orderly(log: seq<Event>, n: nat) {
    DoneIsLast(log, n) && UnhandledCloses(log, n) && Recoveries(log, n)
  }

  /** No execution from index n on was completed or ended in an unhandled error. */
  predicate NoEndBefore(log: seq<Event>, n: nat) {
    forall i :: n <= i < |log| && log[i].ExecCall? ==> !log[i].execution.Done? && !log[i].execution.Unhandled?
  }

  lemma OrderlyJoins(before: seq<Event>, log: seq<Event>, n: nat)
    requires n <= |before| && before <= log
    requires Orderly(before, n) && NoEndBefore(before, n) && Orderly(log, |before|)
    ensures Orderly(log, n)
    ensures NoEndBefore(log, |before|) ==> NoEndBefore(log, n)
  {
    forall i | n <= i < |before|
      ensures log[i] == before[i] && RecoveredAt(log, i)
    {
      assert RecoveredAt(before, i);
    }
  }

  /** One execution and what follows it. */
  lemma OneExecutionIsOrderly(log: seq<Event>, n: nat)
    requires n < |log| && log[n].ExecCall? && NoExec(log, n + 1)
    requires match log[n].execution
             case Done(_) => |log| == n + 1
             case Unhandled(_) => |log| == n + 2 && log[n + 1] == ClosedAll
             case NotOpen(_) => |log| > n + 1 && log[n + 1].LoginCall?
             case Dropped(_) => |log| > n + 2 && log[n + 1] == ClosedAll && log[n + 2].OpenCall?
    ensures Orderly(log, n)
    ensures log[n].execution.Done? || log[n].execution.Unhandled? || NoEndBefore(log, n)
  {
  }

  /** The last event is a login or an opening that failed. */
  predicate EndsRefused(log: seq<Event>) {
    log != [] && match log[|log| - 1]
                 case LoginCall(login) => !login.LoggedIn?
                 case OpenCall(opening) => !opening.Opened?
                 case _ => false
  }

  /** The last execution ended in an unhandled error. */
  predicate EndsUnhandled(log: seq<Event>) {
    |log| >= 2 && log[|log| - 2].ExecCall? && log[|log| - 2].execution.Unhandled?
  }

  /** What the caller gets for a given output. */
  function ReplyFor(request: Request, output: Output): Reply {
    if request.fork then Nothing
    else if !request.ignoreErr && output.rc != 0 then Raised("non-zero return code")
    else if request.alias.None? then Raised("alias")
    else if request.alias.value == "device_connection" then Stdout(output.stdout)
    else Result(output)
  }

  /** The command can be issued: to look for a device connection the program needs an alias. */
  predicate Executable(request: Request) {
    request.fork || request.alias.Some?
  }

  predicate DeviceWrite(request: Request) {
    !request.fork && request.alias == Some("device_connection")
  }

  /** What the program makes of the outcome of an execution: a device write has no error output and no return code. */
  function Seen(request: Request, outcome: ExecOutcome): ExecOutcome {
    if outcome.Done? && DeviceWrite(request) then Done(Output(outcome.output.stdout, "", 0)) else outcome
  }

  /** What the caller may get when no execution was completed: an exception, or what a command would give that printed
      an error and returned 1. */
  ghost predicate FailureReply(request: Request, reply: Reply) {
    reply.Raised? || exists message :: reply == ReplyFor(request, Output("", message, 1))
  }

  /** How the connection phase, a recovery, and the retry loop end. */
  datatype Start = Ready | LoginRefused(message: string) | OpenRefused(message: string)
  datatype Recovery = Retry | GiveUp(message: string) | Raise(message: string)
  datatype Attempted =
    | Completed(output: Output)
    | Failed(message: string)
    | Escaped(message: string)
    | Again(message: string)

  /** How the retry loop's end and the log from index n on belong together. */
  predicate EndMatches(request: Request, log: seq<Event>, n: nat, end: Attempted) {
    && Orderly(log, n)
    && (end.Completed? <==> |log| > n && EndsDone(log))
    && (end.Completed? ==> log[|log| - 1] == ExecCall(Done(end.output)))
    && (end.Again? || end.Failed? ==> NoEndBefore(log, n) && (|log| > n ==> Executable(request)))
    && (end.Failed? ==> |log| > n && EndsRefused(log))
    && (end.Escaped? ==> |log| > n && (EndsUnhandled(log) || EndsRefused(log) || !Executable(request)))
    && (|log| >= n + 2 && EndsUnhandled(log) ==> end == Escaped(log[|log| - 2].execution.message))
  }

  /** The end that a recovery brings about. */
  function EndAfter(recovery: Recovery, message: string): Attempted {
    match recovery
    case Retry => Again(message)
    case GiveUp(loginMessage) => Failed(loginMessage)
    case Raise(raised) => Escaped(raised)
  }

  lemma RecoveredEndMatches(request: Request, log: seq<Event>, n: nat, recovery: Recovery, message: string)
    requires n < |log| && log[n].ExecCall? && NoExec(log, n + 1) && RecoveredAt(log, n)
    requires log[n].execution.NotOpen? || log[n].execution.Dropped?
    requires Executable(request)
    requires recovery.Retry? <==> !EndsRefused(log)
    ensures EndMatches(request, log, n, EndAfter(recovery, message))
  {
    OneExecutionIsOrderly(log, n);
  }

  lemma FinalEndMatches(request: Request, log: seq<Event>, n: nat, outcome: ExecOutcome)
    requires n <= |log|
    ensures outcome.Done? ==> EndMatches(request, log[..n] + [ExecCall(outcome)], n, Completed(outcome.output))
    ensures outcome.Unhandled? ==>
              EndMatches(request, log[..n] + [ExecCall(outcome)] + [ClosedAll], n, Escaped(outcome.message))
    ensures !Executable(request) ==> EndMatches(request, log[..n] + [ClosedAll], n, Escaped("alias"))
  {
  }

  /** After attempts that ended nothing, a later attempt's end is that of all of them. */
  lemma LaterEndMatches(request: Request, before: seq<Event>, log: seq<Event>, n: nat, end: Attempted)
    requires n <= |before| && before < log
    requires Orderly(before, n) && NoEndBefore(before, n) && EndMatches(request, log, |before|, end)
    ensures EndMatches(request, log, n, end)
  {
    OrderlyJoins(before, log, n);
    if EndsUnhandled(log) && |log| - 2 < |before| && |log| >= n + 2 {
      assert log[|log| - 2] == before[|log| - 2];
    }
  }

  // ----- What the calls come to, as functions of the outcome streams -----

  /** The outcomes of all calls that can be made, by the number of events logged before. */
  datatype Streams = Streams(openings: nat -> OpenOutcome, logins: nat -> LoginOutcome, executions: nat -> ExecOutcome)

  /** The library's connections, and the calls made. */
  datatype State = State(pool: seq<Connection>, log: seq<Event>)

  function Opening(streams: Streams, request: Request, s: State): (State, Option<string>) {
    var outcome := streams.openings(|s.log|);
    var log := s.log + [OpenCall(outcome)];
    match outcome
    case Opened =>
      var alias := if request.alias.Some? then request.alias.value else "";
      (State(s.pool + [Connection(|s.pool| + 1, alias, request.openArgs)], log), None)
    case OpenFails(message) => (State(s.pool, log), Some(message))
  }

  /** Up to `left` login calls; `message` is that of the last failure. */
  function LoggingIn(streams: Streams, log: seq<Event>, left: nat, message: string): (seq<Event>, Option<string>)
    decreases left
  {
    if left == 0 then (log, Some(message))
    else
      var outcome := streams.logins(|log|);
      var log' := log + [LoginCall(outcome)];
      match outcome
      case LoggedIn => (log', None)
      case NoSession(next) => LoggingIn(streams, log', left - 1, next)
      case LoginFails(next) => (log', Some(next))
  }

  /** Open a connection and log in. */
  function OpeningAndLoggingIn(streams: Streams, request: Request, s: State): (State, Start) {
    var (t, openError) := Opening(streams, request, s);
    if openError.Some? then (t, OpenRefused(openError.value))
    else
      var (log, loginError) := LoggingIn(streams, t.log, MAX_LOGIN_ATTEMPTS, "");
      (State(t.pool, log), if loginError.Some? then LoginRefused(loginError.value) else Ready)
  }

  function Connecting(streams: Streams, request: Request, s: State): (State, Start) {
    match FirstMatch(s.pool, request.openArgs)
    case Some(connection) => (State(s.pool, s.log + [Switched(connection)]), Ready)
    case None => OpeningAndLoggingIn(streams, request, s)
  }

  function Recovering(streams: Streams, request: Request, s: State, outcome: ExecOutcome): (State, Recovery) {
    if outcome.NotOpen? then
      var (log, loginError) := LoggingIn(streams, s.log, MAX_LOGIN_ATTEMPTS, "");
      (State(s.pool, log), if loginError.Some? then GiveUp(loginError.value) else Retry)
    else
      var (t, start) := OpeningAndLoggingIn(streams, request, State([], s.log + [ClosedAll]));
      (t, if start.Ready? then Retry else Raise(start.message))
  }

  function Attempting(streams: Streams, request: Request, s: State): (State, Attempted) {
    if !Executable(request) then (State([], s.log + [ClosedAll]), Escaped("alias"))
    else
      var outcome := Seen(request, streams.executions(|s.log|));
      var log := s.log + [ExecCall(outcome)];
      match outcome
      case Done(output) => (State(s.pool, log), Completed(output))
      case Unhandled(message) => (State([], log + [ClosedAll]), Escaped(message))
      case _ =>
        var (t, recovery) := Recovering(streams, request, State(s.pool, log), outcome);
        (t, EndAfter(recovery, outcome.message))
  }

  /** Up to `left` attempts; `message` is that of the last failure. */
  function Trying(streams: Streams, request: Request, s: State, left: nat, message: string): (State, Attempted)
    decreases left
  {
    if left == 0 then (s, Again(message))
    else
      var (t, end) := Attempting(streams, request, s);
      if end.Again? then Trying(streams, request, t, left - 1, end.message) else (t, end)
  }

  function ReplyAfter(request: Request, end: Attempted): Reply {
    match end
    case Completed(output) => ReplyFor(request, output)
    case Escaped(message) => Raised(message)
    case Again(message) => ReplyFor(request, Output("", message, 1))
    case Failed(message) => ReplyFor(request, Output("", message, 1))
  }

  function Executing(streams: Streams, request: Request, s: State): (State, Reply) {
    var (t, start) := Connecting(streams, request, s);
    match start
    case OpenRefused(message) => (t, Raised(message))
    case LoginRefused(message) => (t, ReplyFor(request, Output("", message, 1)))
    case Ready =>
      var (u, end) := Trying(streams, request, t, MAX_EXEC_CMD_ATTEMPTS, "");
      (u, ReplyAfter(request, end))
  }

  // ----- Every logged outcome is the stream's -----

  predicate Fits(streams: Streams, request: Request, e: Event, i: nat) {
    match e
    case OpenCall(opening) => opening == streams.openings(i)
    case LoginCall(login) => login == streams.logins(i)
    case ExecCall(execution) => execution == Seen(request, streams.executions(i))
    case _ => true
  }

  /** Every event from index n on is logged with its stream's outcome. */
  ghost predicate FromStreams(streams: Streams, request: Request, log: seq<Event>, n: nat) {
    forall i :: n <= i < |log| ==> Fits(streams, request, log[i], i)
  }

  /** `log` goes on from `before` with outcomes of the streams. */
  ghost predicate GoesOn(streams: Streams, request: Request, before: seq<Event>, log: seq<Event>) {
    before <= log && FromStreams(streams, request, log, |before|)
  }

  lemma GoOn(streams: Streams, request: Request, a: seq<Event>, b: seq<Event>, c: seq<Event>)
    requires GoesOn(streams, request, a, b) && GoesOn(streams, request, b, c)
    ensures GoesOn(streams, request, a, c)
  {
    forall i | |a| <= i < |c|
      ensures Fits(streams, request, c[i], i)
    {
      assert i < |b| ==> c[i] == b[i];
    }
  }

  lemma {:induction false} LoggingInGoesOn(streams: Streams, request: Request, log: seq<Event>, left: nat,
                                           message: string)
    ensures GoesOn(streams, request, log, LoggingIn(streams, log, left, message).0)
    decreases left
  {
    if left > 0 {
      var outcome := streams.logins(|log|);
      var log' := log + [LoginCall(outcome)];
      if outcome.NoSession? {
        LoggingInGoesOn(streams, request, log', left - 1, outcome.message);
        GoOn(streams, request, log, log', LoggingIn(streams, log', left - 1, outcome.message).0);
      }
    }
  }

  lemma OpeningAndLoggingInGoesOn(streams: Streams, request: Request, s: State)
    ensures GoesOn(streams, request, s.log, OpeningAndLoggingIn(streams, request, s).0.log)
  {
    var t := Opening(streams, request, s).0;
    LoggingInGoesOn(streams, request, t.log, MAX_LOGIN_ATTEMPTS, "");
    GoOn(streams, request, s.log, t.log, LoggingIn(streams, t.log, MAX_LOGIN_ATTEMPTS, "").0);
  }

  lemma ConnectingGoesOn(streams: Streams, request: Request, s: State)
    ensures GoesOn(streams, request, s.log, Connecting(streams, request, s).0.log)
  {
    OpeningAndLoggingInGoesOn(streams, request, s);
  }

  lemma RecoveringGoesOn(streams: Streams, request: Request, s: State, outcome: ExecOutcome)
    ensures GoesOn(streams, request, s.log, Recovering(streams, request, s, outcome).0.log)
  {
    LoggingInGoesOn(streams, request, s.log, MAX_LOGIN_ATTEMPTS, "");
    var closed := State([], s.log + [ClosedAll]);
    OpeningAndLoggingInGoesOn(streams, request, closed);
    GoOn(streams, request, s.log, closed.log, OpeningAndLoggingIn(streams, request, closed).0.log);
  }

  lemma AttemptingGoesOn(streams: Streams, request: Request, s: State)
    ensures GoesOn(streams, request, s.log, Attempting(streams, request, s).0.log)
  {
    var outcome := Seen(request, streams.executions(|s.log|));
    var t := State(s.pool, s.log + [ExecCall(outcome)]);
    RecoveringGoesOn(streams, request, t, outcome);
    GoOn(streams, request, s.log, t.log, Recovering(streams, request, t, outcome).0.log);
    assert GoesOn(streams, request, s.log, t.log + [ClosedAll]);
  }

  lemma {:induction false} TryingGoesOn(streams: Streams, request: Request, s: State, left: nat, message: string)
    ensures GoesOn(streams, request, s.log, Trying(streams, request, s, left, message).0.log)
    decreases left
  {
    if left > 0 {
      var (t, end) := Attempting(streams, request, s);
      AttemptingGoesOn(streams, request, s);
      if end.Again? {
        TryingGoesOn(streams, request, t, left - 1, end.message);
        GoOn(streams, request, s.log, t.log, Trying(streams, request, t, left - 1, end.message).0.log);
      }
    }
  }

  /** Nothing is logged that the streams do not hold. */
  lemma ExecutingGoesOn(streams: Streams, request: Request, s: State)
    ensures GoesOn(streams, request, s.log, Executing(streams, request, s).0.log)
  {
    var t := Connecting(streams, request, s).0;
    ConnectingGoesOn(streams, request, s);
    TryingGoesOn(streams, request, t, MAX_EXEC_CMD_ATTEMPTS, "");
    GoOn(streams, request, s.log, t.log, Trying(streams, request, t, MAX_EXEC_CMD_ATTEMPTS, "").0.log);
  }

  // ----- What every run keeps -----

  /** Login calls only, going on only after the tolerated failure, up to `left` of them; success exactly if the last one
      logged in. */
  ghost predicate LoginKeeps(streams: Streams, log: seq<Event>, left: nat, log': seq<Event>, error: Option<string>) {
    && log <= log' && |log'| <= |log| + left && (left > 0 ==> log < log')
    && (forall i :: |log| <= i < |log'| ==> log'[i] == LoginCall(streams.logins(i)))
    && (forall i :: |log| <= i < |log'| - 1 ==> streams.logins(i).NoSession?)
    && (left > 0 ==> (error.None? <==> streams.logins(|log'| - 1).LoggedIn?))
    && (error.Some? ==> |log'| == |log| + left || streams.logins(|log'| - 1).LoginFails?)
    && LoginCalls(log') == LoginCalls(log) + (|log'| - |log|) && ExecCalls(log') == ExecCalls(log)
    && (left == 0 ==> error.Some?)
  }

  lemma LoginAgainKeeps(streams: Streams, log: seq<Event>, left: nat, log': seq<Event>, error: Option<string>)
    requires streams.logins(|log|).NoSession? && left > 0
    requires LoginKeeps(streams, log + [LoginCall(streams.logins(|log|))], left - 1, log', error)
    ensures LoginKeeps(streams, log, left, log', error)
  {
    LogOneMore(log, LoginCall(streams.logins(|log|)));
    assert log'[|log|] == LoginCall(streams.logins(|log|));
  }

  lemma {:induction false} LoggingInKeeps(streams: Streams, log: seq<Event>, left: nat, message: string)
    ensures var (log', error) := LoggingIn(streams, log, left, message);
            LoginKeeps(streams, log, left, log', error)
    decreases left
  {
    if left > 0 {
      var outcome := streams.logins(|log|);
      var next := log + [LoginCall(outcome)];
      LogOneMore(log, LoginCall(outcome));
      if outcome.NoSession? {
        LoggingInKeeps(streams, next, left - 1, outcome.message);
        var (log', error) := LoggingIn(streams, next, left - 1, outcome.message);
        LoginAgainKeeps(streams, log, left, log', error);
      }
    }
  }

  lemma OpeningAndLoggingInKeeps(streams: Streams, request: Request, s: State)
    ensures var (t, start) := OpeningAndLoggingIn(streams, request, s);
            && s.log < t.log && NoExec(t.log, |s.log|) && t.log[|s.log|].OpenCall?
            && (start.Ready? <==> !EndsRefused(t.log))
            && ExecCalls(t.log) == ExecCalls(s.log) && LoginCalls(t.log) <= LoginCalls(s.log) + MAX_LOGIN_ATTEMPTS
  {
    var (begun, openError) := Opening(streams, request, s);
    LogOneMore(s.log, OpenCall(streams.openings(|s.log|)));
    if openError.None? {
      LoggingInKeeps(streams, begun.log, MAX_LOGIN_ATTEMPTS, "");
    }
  }

  lemma ConnectingKeeps(streams: Streams, request: Request, s: State)
    ensures var (t, start) := Connecting(streams, request, s);
            && s.log < t.log && NoExec(t.log, |s.log|)
            && (match FirstMatch(s.pool, request.openArgs)
                case Some(c) => t.log[|s.log|] == Switched(c)
                case None => t.log[|s.log|].OpenCall?)
            && (start.Ready? <==> !EndsRefused(t.log))
            && ExecCalls(t.log) == ExecCalls(s.log) && LoginCalls(t.log) <= LoginCalls(s.log) + MAX_LOGIN_ATTEMPTS
  {
    match FirstMatch(s.pool, request.openArgs)
    case Some(c) => LogOneMore(s.log, Switched(c));
    case None => OpeningAndLoggingInKeeps(streams, request, s);
  }

  lemma RecoveringKeeps(streams: Streams, request: Request, s: State, outcome: ExecOutcome)
    requires outcome.NotOpen? || outcome.Dropped?
    ensures var (t, recovery) := Recovering(streams, request, s, outcome);
            && s.log < t.log && NoExec(t.log, |s.log|)
            && (outcome.NotOpen? ==> t.log[|s.log|].LoginCall? && !recovery.Raise?)
            && (outcome.Dropped? ==>
                  && |t.log| > |s.log| + 1 && t.log[|s.log|] == ClosedAll && t.log[|s.log| + 1].OpenCall?
                  && !recovery.GiveUp?)
            && (recovery.Retry? <==> !EndsRefused(t.log))
            && ExecCalls(t.log) == ExecCalls(s.log) && LoginCalls(t.log) <= LoginCalls(s.log) + MAX_LOGIN_ATTEMPTS
  {
    if outcome.NotOpen? {
      LoggingInKeeps(streams, s.log, MAX_LOGIN_ATTEMPTS, "");
    } else {
      LogOneMore(s.log, ClosedAll);
      OpeningAndLoggingInKeeps(streams, request, State([], s.log + [ClosedAll]));
    }
  }

  /** What one or more attempts keep: their end fits the log, calls are counted, and an unhandled error leaves no
      connection. */
  ghost predicate AttemptsKeep(request: Request, s: State, t: State, end: Attempted, attempts: nat) {
    && s.log <= t.log && (attempts > 0 ==> s.log < t.log)
    && EndMatches(request, t.log, |s.log|, end)
    && ExecCalls(t.log) <= ExecCalls(s.log) + attempts
    && LoginCalls(t.log) <= LoginCalls(s.log) + MAX_LOGIN_ATTEMPTS * attempts
    && (end.Again? && Executable(request) ==> ExecCalls(t.log) == ExecCalls(s.log) + attempts)
    && (Executable(request) && attempts > 0 ==> ExecCalls(t.log) > ExecCalls(s.log))
    && (!Executable(request) ==> NoExec(t.log, |s.log|) && ExecCalls(t.log) == ExecCalls(s.log))
    && (|t.log| >= |s.log| + 2 && EndsUnhandled(t.log) ==> t.pool == [])
  }

  lemma FinalAttemptKeeps(streams: Streams, request: Request, s: State)
    requires Executable(request) ==>
               var outcome := Seen(request, streams.executions(|s.log|)); outcome.Done? || outcome.Unhandled?
    ensures var (t, end) := Attempting(streams, request, s);
            AttemptsKeep(request, s, t, end, 1)
  {
    var outcome := Seen(request, streams.executions(|s.log|));
    var log := s.log + [ExecCall(outcome)];
    LogOneMore(s.log, ExecCall(outcome));
    LogOneMore(s.log, ClosedAll);
    LogOneMore(log, ClosedAll);
    FinalEndMatches(request, s.log, |s.log|, outcome);
    assert s.log[..|s.log|] == s.log;
  }

  lemma RecoveredAttemptKeeps(streams: Streams, request: Request, s: State)
    requires Executable(request)
    requires var outcome := Seen(request, streams.executions(|s.log|)); outcome.NotOpen? || outcome.Dropped?
    ensures var (t, end) := Attempting(streams, request, s);
            AttemptsKeep(request, s, t, end, 1)
  {
    var outcome := Seen(request, streams.executions(|s.log|));
    var failed := State(s.pool, s.log + [ExecCall(outcome)]);
    LogOneMore(s.log, ExecCall(outcome));
    RecoveringKeeps(streams, request, failed, outcome);
    var (t, recovery) := Recovering(streams, request, failed, outcome);
    assert t.log[|s.log|] == ExecCall(outcome);
    RecoveredEndMatches(request, t.log, |s.log|, recovery, outcome.message);
  }

  lemma AttemptingKeeps(streams: Streams, request: Request, s: State)
    ensures var (t, end) := Attempting(streams, request, s);
            AttemptsKeep(request, s, t, end, 1)
  {
    var outcome := Seen(request, streams.executions(|s.log|));
    if Executable(request) && (outcome.NotOpen? || outcome.Dropped?) {
      RecoveredAttemptKeeps(streams, request, s);
    } else {
      FinalAttemptKeeps(streams, request, s);
    }
  }

  lemma AttemptsJoin(request: Request, s: State, t: State, u: State, message: string, end: Attempted, attempts: nat)
    requires AttemptsKeep(request, s, t, Again(message), 1) && AttemptsKeep(request, t, u, end, attempts)
             && attempts > 0
    ensures AttemptsKeep(request, s, u, end, attempts + 1)
  {
    LaterEndMatches(request, t.log, u.log, |s.log|, end);
  }

  lemma {:induction false} TryingKeeps(streams: Streams, request: Request, s: State, left: nat, message: string)
    requires left > 0
    ensures var (t, end) := Trying(streams, request, s, left, message);
            AttemptsKeep(request, s, t, end, left)
    decreases left
  {
    var (t, end) := Attempting(streams, request, s);
    AttemptingKeeps(streams, request, s);
    if end.Again? && left > 1 {
      TryingKeeps(streams, request, t, left - 1, end.message);
      var (u, last) := Trying(streams, request, t, left - 1, end.message);
      AttemptsJoin(request, s, t, u, end.message, last, left - 1);
    }
  }

  /** What a completed execution returned is what the caller gets; otherwise it gets an exception or the reply for an
      error output and return code 1.  An unhandled execution error is raised again, with no connection left open, and
      without an alias the call ends in an exception, unless it is forked. */
  ghost predicate RepliesFor(request: Request, s: State, t: State, reply: Reply) {
    && (EndsDone(t.log) ==> Executable(request) && reply == ReplyFor(request, t.log[|t.log| - 1].execution.output))
    && (!EndsDone(t.log) ==> FailureReply(request, reply))
    && (|t.log| >= |s.log| + 2 && EndsUnhandled(t.log) ==>
          t.pool == [] && reply == Raised(t.log[|t.log| - 2].execution.message))
    && (!Executable(request) ==> reply.Raised?)
  }

  /** The command is executed at most twice, with at most 15 login calls, and not at all if it cannot be issued.  If
      it can, it is unless the connection is refused, and given up only when it was completed, an error was not
      handled, a recovery was refused, or both attempts were made. */
  predicate IssuesCommand(request: Request, s: State, t: State) {
    && ExecCalls(t.log) <= ExecCalls(s.log) + 2 && LoginCalls(t.log) <= LoginCalls(s.log) + 15
    && (!Executable(request) ==> NoExec(t.log, |s.log|) && ExecCalls(t.log) == ExecCalls(s.log))
    && (Executable(request) ==>
          && (ExecCalls(t.log) > ExecCalls(s.log) || (EndsRefused(t.log) && NoExec(t.log, |s.log|)))
          && (EndsDone(t.log) || EndsUnhandled(t.log) || EndsRefused(t.log)
              || ExecCalls(t.log) == ExecCalls(s.log) + 2))
  }

  /** The first thing logged is the switch to the first connection that agrees with the search arguments, or the
      opening of a new one if none does. */
  predicate ConnectsFirst(request: Request, s: State, log: seq<Event>) {
    && s.log < log
    && match FirstMatch(s.pool, request.openArgs)
       case Some(c) => log[|s.log|] == Switched(c)
       case None => log[|s.log|].OpenCall?
  }

  lemma TriedReplies(request: Request, s: State, c: State, t: State, end: Attempted)
    requires s.log < c.log && NoExec(c.log, |s.log|) && AttemptsKeep(request, c, t, end, 2)
    ensures RepliesFor(request, s, t, ReplyAfter(request, end))
  {
    assert EndsUnhandled(t.log) && |t.log| >= |s.log| + 2 ==> |t.log| - 2 >= |c.log|;
  }

  lemma TriedIsIssued(request: Request, s: State, c: State, t: State, end: Attempted)
    requires s.log < c.log && NoExec(c.log, |s.log|) && AttemptsKeep(request, c, t, end, 2)
    requires ExecCalls(c.log) == ExecCalls(s.log) && LoginCalls(c.log) <= LoginCalls(s.log) + MAX_LOGIN_ATTEMPTS
    ensures IssuesCommand(request, s, t)
  {
  }

  lemma TriedIsOrderly(request: Request, s: State, c: State, t: State, end: Attempted)
    requires s.log < c.log && NoExec(c.log, |s.log|) && AttemptsKeep(request, c, t, end, 2)
    ensures Orderly(t.log, |s.log|)
  {
    OrderlyJoins(c.log, t.log, |s.log|);
  }

  /** How the command is issued, on every stream of outcomes. */
  lemma ExecutingIssues(streams: Streams, request: Request, s: State)
    ensures IssuesCommand(request, s, Executing(streams, request, s).0)
  {
    var (connected, start) := Connecting(streams, request, s);
    ConnectingKeeps(streams, request, s);
    if start.Ready? {
      var (t, end) := Trying(streams, request, connected, MAX_EXEC_CMD_ATTEMPTS, "");
      TryingKeeps(streams, request, connected, MAX_EXEC_CMD_ATTEMPTS, "");
      TriedIsIssued(request, s, connected, t, end);
    }
  }

  /** What the caller gets, on every stream of outcomes. */
  lemma ExecutingReplies(streams: Streams, request: Request, s: State)
    ensures var (t, reply) := Executing(streams, request, s);
            RepliesFor(request, s, t, reply)
  {
    var (connected, start) := Connecting(streams, request, s);
    ConnectingKeeps(streams, request, s);
    if start.Ready? {
      var (t, end) := Trying(streams, request, connected, MAX_EXEC_CMD_ATTEMPTS, "");
      TryingKeeps(streams, request, connected, MAX_EXEC_CMD_ATTEMPTS, "");
      TriedReplies(request, s, connected, t, end);
    }
  }

  /** What is logged, on every stream of outcomes: the connection first, then executions and recoveries in order. */
  lemma ExecutingIsOrderly(streams: Streams, request: Request, s: State)
    ensures var log := Executing(streams, request, s).0.log;
            ConnectsFirst(request, s, log) && Orderly(log, |s.log|)
  {
    var (connected, start) := Connecting(streams, request, s);
    ConnectingKeeps(streams, request, s);
    if start.Ready? {
      var (t, end) := Trying(streams, request, connected, MAX_EXEC_CMD_ATTEMPTS, "");
      TryingKeeps(streams, request, connected, MAX_EXEC_CMD_ATTEMPTS, "");
      TriedIsOrderly(request, s, connected, t, end);
    }
  }

  // ----- What exactly is handed back -----

  /** What the caller gets for a completed execution, field by field: nothing for a forked command; the output of a
      device write; an exception for a return code that is not ignored; and otherwise both outputs and the return
      code. */
  predicate HandsBack(request: Request, output: Output, reply: Reply) {
    && (reply.Nothing? <==> request.fork)
    && (reply.Stdout? <==> !request.fork && request.alias == Some("device_connection"))
    && (reply.Stdout? ==> reply.stdout == output.stdout)
    && (reply.Raised? <==>
          !request.fork && request.alias != Some("device_connection") && !request.ignoreErr && output.rc != 0)
    && (reply.Result? ==>
          && reply.output.stdout == output.stdout
          && reply.output.stderr == output.stderr
          && reply.output.rc == output.rc)
  }

  lemma ReplyHandsBack(request: Request, outcome: ExecOutcome)
    requires Executable(request) && outcome.Done?
    ensures HandsBack(request, outcome.output, ReplyFor(request, Seen(request, outcome).output))
  {
  }

  /** A call that ends with a completed execution hands back that execution's outcome. */
  lemma ExecutingHandsBack(streams: Streams, request: Request, s: State)
    ensures var (t, reply) := Executing(streams, request, s);
            EndsDone(t.log) ==>
              var outcome := streams.executions(|t.log| - 1);
              outcome.Done? && HandsBack(request, outcome.output, reply)
  {
    var (t, reply) := Executing(streams, request, s);
    ExecutingReplies(streams, request, s);
    LastIsNew(streams, request, s);
    if EndsDone(t.log) {
      assert Fits(streams, request, t.log[|t.log| - 1], |t.log| - 1);
      ReplyHandsBack(request, streams.executions(|t.log| - 1));
    }
  }

  lemma LastIsNew(streams: Streams, request: Request, s: State)
    ensures var log := Executing(streams, request, s).0.log;
            log != [] && Fits(streams, request, log[|log| - 1], |log| - 1)
  {
    ExecutingGoesOn(streams, request, s);
    ExecutingIsOrderly(streams, request, s);
  }

  /** The message of the login or opening that was refused last. */
  function Refusal(log: seq<Event>): string
    requires EndsRefused(log)
  {
    match log[|log| - 1]
    case LoginCall(login) => login.message
    case OpenCall(opening) => opening.message
  }

  /** The message of the last execution, which failed. */
  function LastExecError(log: seq<Event>): string
    decreases |log|
  {
    if log == [] then ""
    else
      match log[|log| - 1]
      case ExecCall(execution) => if execution.Done? then "" else execution.message
      case _ => LastExecError(log[..|log| - 1])
  }

  /** What the caller is told about a failure: why the connection was refused, if that is how the call ended, and
      otherwise why the last execution failed. */
  function Complaint(log: seq<Event>): string {
    if EndsRefused(log) then Refusal(log) else LastExecError(log)
  }

  lemma {:induction false} ErrorOf(log: seq<Event>, n: nat)
    requires n < |log| && log[n].ExecCall? && !log[n].execution.Done? && NoExec(log, n + 1)
    ensures LastExecError(log) == log[n].execution.message
    decreases |log|
  {
    if n < |log| - 1 {
      ErrorOf(log[..|log| - 1], n);
    }
  }

  lemma {:induction false} LoggingInComplains(streams: Streams, log: seq<Event>, left: nat, message: string)
    requires left > 0
    ensures var (log', error) := LoggingIn(streams, log, left, message);
            error.Some? ==> EndsRefused(log') && Refusal(log') == error.value
    decreases left
  {
    var outcome := streams.logins(|log|);
    if outcome.NoSession? && left > 1 {
      LoggingInComplains(streams, log + [LoginCall(outcome)], left - 1, outcome.message);
    }
  }

  lemma OpeningAndLoggingInComplains(streams: Streams, request: Request, s: State)
    ensures var (t, start) := OpeningAndLoggingIn(streams, request, s);
            !start.Ready? ==> EndsRefused(t.log) && Refusal(t.log) == start.message
  {
    LoggingInComplains(streams, Opening(streams, request, s).0.log, MAX_LOGIN_ATTEMPTS, "");
  }

  lemma RecoveringComplains(streams: Streams, request: Request, s: State, outcome: ExecOutcome)
    requires outcome.NotOpen? || outcome.Dropped?
    ensures var (t, recovery) := Recovering(streams, request, s, outcome);
            !recovery.Retry? ==> EndsRefused(t.log) && Refusal(t.log) == recovery.message
  {
    LoggingInComplains(streams, s.log, MAX_LOGIN_ATTEMPTS, "");
    OpeningAndLoggingInComplains(streams, request, State([], s.log + [ClosedAll]));
  }

  lemma AttemptingComplains(streams: Streams, request: Request, s: State)
    requires Executable(request)
    ensures var (t, end) := Attempting(streams, request, s);
            !end.Completed? ==> end.message == Complaint(t.log)
  {
    var outcome := Seen(request, streams.executions(|s.log|));
    var failed := State(s.pool, s.log + [ExecCall(outcome)]);
    match outcome
    case Done(_) =>
    case Unhandled(_) => ErrorOf(failed.log + [ClosedAll], |s.log|);
    case _ =>
      RecoveringKeeps(streams, request, failed, outcome);
      RecoveringComplains(streams, request, failed, outcome);
      var t := Recovering(streams, request, failed, outcome).0;
      assert t.log[|s.log|] == ExecCall(outcome);
      ErrorOf(t.log, |s.log|);
  }

  lemma {:induction false} TryingComplains(streams: Streams, request: Request, s: State, left: nat, message: string)
    requires Executable(request) && left > 0
    ensures var (t, end) := Trying(streams, request, s, left, message);
            !end.Completed? ==> end.message == Complaint(t.log)
    decreases left
  {
    var (t, end) := Attempting(streams, request, s);
    AttemptingComplains(streams, request, s);
    if end.Again? && left > 1 {
      TryingComplains(streams, request, t, left - 1, end.message);
    }
  }

  /** The last execution among the events from index n on. */
  function LastExecution(log: seq<Event>, n: nat): Option<ExecOutcome>
    decreases |log|
  {
    if |log| <= n then None
    else
      match log[|log| - 1]
      case ExecCall(execution) => Some(execution)
      case _ => LastExecution(log[..|log| - 1], n)
  }

  /** The call ends in an exception of its own accord: after an unhandled error, a refused opening, or a login refused
      while replacing a dropped session. */
  predicate EndsInException(log: seq<Event>, n: nat) {
    || (|log| >= n + 2 && EndsUnhandled(log))
    || (EndsRefused(log) && log[|log| - 1].OpenCall?)
    || (EndsRefused(log) && LastExecution(log, n).Some? && LastExecution(log, n).value.Dropped?)
  }

  lemma {:induction false} LastExecutionIs(log: seq<Event>, n: nat, k: nat)
    requires n <= k < |log| && log[k].ExecCall? && NoExec(log, k + 1)
    ensures LastExecution(log, n) == Some(log[k].execution)
    decreases |log|
  {
    if k < |log| - 1 {
      LastExecutionIs(log[..|log| - 1], n, k);
    }
  }

  lemma {:induction false} NoLastExecution(log: seq<Event>, n: nat)
    requires NoExec(log, n)
    ensures LastExecution(log, n) == None
    decreases |log|
  {
    if n < |log| {
      NoLastExecution(log[..|log| - 1], n);
    }
  }

  lemma {:induction false} LaterExecution(log: seq<Event>, n: nat, m: nat)
    requires n <= m && LastExecution(log, m).Some?
    ensures LastExecution(log, n) == LastExecution(log, m)
    decreases |log|
  {
    if !log[|log| - 1].ExecCall? {
      LaterExecution(log[..|log| - 1], n, m);
    }
  }

  lemma SameException(log: seq<Event>, n: nat, m: nat)
    requires n <= m && |log| >= m + 2 && LastExecution(log, m).Some?
    ensures EndsInException(log, n) <==> EndsInException(log, m)
  {
    LaterExecution(log, n, m);
  }

  lemma AttemptingEnds(streams: Streams, request: Request, s: State)
    requires Executable(request)
    ensures var (t, end) := Attempting(streams, request, s);
            && LastExecution(t.log, |s.log|).Some?
            && (!end.Completed? ==>
                  |t.log| >= |s.log| + 2 && (end.Escaped? <==> EndsInException(t.log, |s.log|)))
  {
    var outcome := Seen(request, streams.executions(|s.log|));
    var failed := State(s.pool, s.log + [ExecCall(outcome)]);
    match outcome
    case Done(_) => LastExecutionIs(failed.log, |s.log|, |s.log|);
    case Unhandled(_) => LastExecutionIs(failed.log + [ClosedAll], |s.log|, |s.log|);
    case _ =>
      RecoveringKeeps(streams, request, failed, outcome);
      RecoveringEnds(streams, request, failed, outcome);
      var t := Recovering(streams, request, failed, outcome).0;
      assert t.log[|s.log|] == ExecCall(outcome);
      LastExecutionIs(t.log, |s.log|, |s.log|);
  }

  /** After a closed connection was found a login comes last; the last event is never an execution. */
  lemma RecoveringEnds(streams: Streams, request: Request, s: State, outcome: ExecOutcome)
    requires outcome.NotOpen? || outcome.Dropped?
    ensures var log := Recovering(streams, request, s, outcome).0.log;
            && |log| > |s.log| && (outcome.NotOpen? ==> log[|log| - 1].LoginCall?)
            && (outcome.Dropped? ==> |log| > |s.log| + 1)
  {
    LoggingInKeeps(streams, s.log, MAX_LOGIN_ATTEMPTS, "");
    RecoveringKeeps(streams, request, s, outcome);
  }

  lemma {:induction false} TryingEnds(streams: Streams, request: Request, s: State, left: nat, message: string)
    requires Executable(request) && left > 0
    ensures var (t, end) := Trying(streams, request, s, left, message);
            && LastExecution(t.log, |s.log|).Some?
            && (!end.Completed? ==>
                  |t.log| >= |s.log| + 2 && (end.Escaped? <==> EndsInException(t.log, |s.log|)))
    decreases left
  {
    var (t, end) := Attempting(streams, request, s);
    AttemptingEnds(streams, request, s);
    AttemptingKeeps(streams, request, s);
    if end.Again? && left > 1 {
      TryingEnds(streams, request, t, left - 1, end.message);
      var (u, last) := Trying(streams, request, t, left - 1, end.message);
      LaterExecution(u.log, |s.log|, |t.log|);
      if !last.Completed? {
        SameException(u.log, |s.log|, |t.log|);
      }
    }
  }

  /** What the caller gets for a command that can be issued but was not completed, field by field: an exception with the
      complaint, if the call ends in one; otherwise nothing if forked, an exception for the return code 1 if errors are
      not ignored, an empty device output, or that return code with the complaint as the error output. */
  predicate Complains(request: Request, raises: bool, complaint: string, reply: Reply) {
    if raises then reply == Raised(complaint)
    else if request.fork then reply == Nothing
    else if !request.ignoreErr then reply.Raised?
    else if request.alias == Some("device_connection") then reply == Stdout("")
    else reply == Result(Output("", complaint, 1))
  }

  lemma ReplyComplains(request: Request, complaint: string)
    requires Executable(request)
    ensures Complains(request, false, complaint, ReplyFor(request, Output("", complaint, 1)))
  {
  }

  /** A call whose command can be issued and that ends without a completed execution tells the caller why. */
  lemma ExecutingComplains(streams: Streams, request: Request, s: State)
    requires Executable(request)
    ensures var (t, reply) := Executing(streams, request, s);
            !EndsDone(t.log) ==> Complains(request, EndsInException(t.log, |s.log|), Complaint(t.log), reply)
  {
    var (connected, start) := Connecting(streams, request, s);
    ConnectingKeeps(streams, request, s);
    if start.Ready? {
      TriedComplains(streams, request, s);
    } else {
      RefusedComplains(streams, request, s);
    }
  }

  lemma RefusedComplains(streams: Streams, request: Request, s: State)
    requires Executable(request) && !Connecting(streams, request, s).1.Ready?
    ensures var (t, reply) := Executing(streams, request, s);
            Complains(request, EndsInException(t.log, |s.log|), Complaint(t.log), reply)
  {
    var (t, start) := Connecting(streams, request, s);
    ConnectingKeeps(streams, request, s);
    OpeningAndLoggingInComplains(streams, request, s);
    ConnectingRefused(streams, request, s);
    NoLastExecution(t.log, |s.log|);
    ReplyComplains(request, Complaint(t.log));
  }

  lemma ConnectingRefused(streams: Streams, request: Request, s: State)
    ensures var (t, start) := Connecting(streams, request, s);
            !start.Ready? ==>
              && t.log != [] && !(|t.log| >= |s.log| + 2 && EndsUnhandled(t.log))
              && (start.OpenRefused? <==> t.log[|t.log| - 1].OpenCall?)
  {
    var begun := Opening(streams, request, s).0;
    LoggingInKeeps(streams, begun.log, MAX_LOGIN_ATTEMPTS, "");
    OpeningAndLoggingInKeeps(streams, request, s);
    ConnectingKeeps(streams, request, s);
    var log := Connecting(streams, request, s).0.log;
    assert |log| == |s.log| + 1 ==> log[|log| - 1] == log[|s.log|];
  }

  lemma TriedComplains(streams: Streams, request: Request, s: State)
    requires Executable(request) && Connecting(streams, request, s).1.Ready?
    ensures var (t, reply) := Executing(streams, request, s);
            !EndsDone(t.log) ==> Complains(request, EndsInException(t.log, |s.log|), Complaint(t.log), reply)
  {
    var connected := Connecting(streams, request, s).0;
    ConnectingKeeps(streams, request, s);
    var t := Trying(streams, request, connected, MAX_EXEC_CMD_ATTEMPTS, "").0;
    TryingKeeps(streams, request, connected, MAX_EXEC_CMD_ATTEMPTS, "");
    TryingComplains(streams, request, connected, MAX_EXEC_CMD_ATTEMPTS, "");
    TryingEnds(streams, request, connected, MAX_EXEC_CMD_ATTEMPTS, "");
    if |t.log| >= |connected.log| + 2 {
      SameException(t.log, |s.log|, |connected.log|);
    }
    ReplyComplains(request, Complaint(t.log));
  }

  // ----- The contract of a call -----

  /** From state s the call leads to state t and to the reply. */
  ghost predicate CallMeets(streams: Streams, request: Request, s: State, t: State, reply: Reply) {
    // Every call logged has its stream's outcome.
    && GoesOn(streams, request, s.log, t.log)
    // A connection is reused exactly when one in the pool agrees with the search arguments.
    && ConnectsFirst(request, s, t.log)
    // Calls are bounded, and the command is issued as far as it can be.
    && IssuesCommand(request, s, t)
    // The first completed execution is the last thing done; a tolerated failure is followed by its recovery, an
    // unhandled one by closing all connections.
    && Orderly(t.log, |s.log|)
    // The caller gets what a completed execution returned, and never its reply without one if failures can be told.
    && RepliesFor(request, s, t, reply)
    && (EndsDone(t.log) ==>
          && streams.executions(|t.log| - 1).Done?
          && HandsBack(request, streams.executions(|t.log| - 1).output, reply))
    && (Executable(request) && !EndsDone(t.log) ==>
          Complains(request, EndsInException(t.log, |s.log|), Complaint(t.log), reply))
  }

  lemma ExecutingMeets(streams: Streams, request: Request, s: State)
    ensures var (t, reply) := Executing(streams, request, s);
            CallMeets(streams, request, s, t, reply)
  {
    ExecutingGoesOn(streams, request, s);
    ExecutingIssues(streams, request, s);
    ExecutingIsOrderly(streams, request, s);
    ExecutingReplies(streams, request, s);
    ExecutingHandsBack(streams, request, s);
    if Executable(request) {
      ExecutingComplains(streams, request, s);
    }
  }

  // ----- The connection is there for the next call -----

  /** A connection that agrees with the arguments is in the pool. */
  predicate Serves(pool: seq<Connection>, args: map<string, string>) {
    FirstMatch(pool, args).Some?
  }

  lemma {:induction false} NewConnectionServes(pool: seq<Connection>, connection: Connection)
    ensures Serves(pool + [connection], connection.config)
    decreases |pool|
  {
    if pool == [] {
      assert pool + [connection] == [connection];
    } else {
      assert (pool + [connection])[1..] == pool[1..] + [connection];
      NewConnectionServes(pool[1..], connection);
    }
  }

  lemma OpeningServes(streams: Streams, request: Request, s: State)
    ensures var (t, error) := Opening(streams, request, s);
            error.None? ==> Serves(t.pool, request.openArgs)
  {
    var alias := if request.alias.Some? then request.alias.value else "";
    NewConnectionServes(s.pool, Connection(|s.pool| + 1, alias, request.openArgs));
  }

  lemma OpeningAndLoggingInServes(streams: Streams, request: Request, s: State)
    ensures var (t, start) := OpeningAndLoggingIn(streams, request, s);
            start.Ready? ==> Serves(t.pool, request.openArgs)
  {
    OpeningServes(streams, request, s);
  }

  lemma AttemptingServes(streams: Streams, request: Request, s: State)
    requires Serves(s.pool, request.openArgs)
    ensures var (t, end) := Attempting(streams, request, s);
            !end.Escaped? ==> Serves(t.pool, request.openArgs)
  {
    var outcome := Seen(request, streams.executions(|s.log|));
    OpeningAndLoggingInServes(streams, request, State([], s.log + [ExecCall(outcome)] + [ClosedAll]));
  }

  lemma {:induction false} TryingServes(streams: Streams, request: Request, s: State, left: nat, message: string)
    requires Serves(s.pool, request.openArgs)
    ensures var (t, end) := Trying(streams, request, s, left, message);
            !end.Escaped? ==> Serves(t.pool, request.openArgs)
    decreases left
  {
    if left > 0 {
      var (t, end) := Attempting(streams, request, s);
      AttemptingServes(streams, request, s);
      if end.Again? {
        TryingServes(streams, request, t, left - 1, end.message);
      }
    }
  }

  /** After a completed call, the next one with the same connection arguments opens no connection. */
  lemma NextCallReuses(streams: Streams, request: Request, s: State, next: Request)
    requires next.openArgs == request.openArgs && EndsDone(Executing(streams, request, s).0.log)
    ensures var t := Executing(streams, request, s).0;
            var log := Executing(streams, next, t).0.log;
            |log| > |t.log| && log[|t.log|].Switched?
  {
    var (connected, start) := Connecting(streams, request, s);
    ConnectingKeeps(streams, request, s);
    OpeningAndLoggingInServes(streams, request, s);
    assert start.Ready?;
    TryingKeeps(streams, request, connected, MAX_EXEC_CMD_ATTEMPTS, "");
    TryingServes(streams, request, connected, MAX_EXEC_CMD_ATTEMPTS, "");
    ExecutingIsOrderly(streams, next, Executing(streams, request, s).0);
  }

  // ----- Can the caller tell a failure? -----

  /** The call ends with a completed execution. */
  predicate Completes(streams: Streams, request: Request, s: State) {
    EndsDone(Executing(streams, request, s).0.log)
  }

  /** The call ends with a completed execution that returned 0. */
  predicate Succeeds(streams: Streams, request: Request, s: State) {
    var log := Executing(streams, request, s).0.log;
    EndsDone(log) && log[|log| - 1].execution.output.rc == 0
  }

  function ReplyOf(streams: Streams, request: Request, s: State): Reply {
    Executing(streams, request, s).1
  }

  /** The failures of a request can be told unless it is forked or a device write with errors ignored. */
  predicate Telling(request: Request) {
    !request.fork && !(request.alias == Some("device_connection") && request.ignoreErr)
  }

  /** The reply is one that a command that returned 0 gets. */
  ghost predicate SuccessReply(request: Request, reply: Reply) {
    Executable(request) && exists output: Output :: output.rc == 0 && reply == ReplyFor(request, output)
  }

  lemma RepliesDiffer(request: Request, success: Reply, failure: Reply)
    requires Telling(request) && SuccessReply(request, success) && FailureReply(request, failure)
    ensures success != failure
  {
  }

  lemma TellingReplies(streams: Streams, request: Request, s: State, failing: Streams, s': State)
    requires Telling(request) && Succeeds(streams, request, s) && !Completes(failing, request, s')
    ensures ReplyOf(streams, request, s) != ReplyOf(failing, request, s')
  {
    SucceedingReply(streams, request, s);
    FailingReply(failing, request, s');
    RepliesDiffer(request, ReplyOf(streams, request, s), ReplyOf(failing, request, s'));
  }

  lemma SucceedingReply(streams: Streams, request: Request, s: State)
    requires Succeeds(streams, request, s)
    ensures SuccessReply(request, ReplyOf(streams, request, s))
  {
    ExecutingReplies(streams, request, s);
  }

  lemma FailingReply(streams: Streams, request: Request, s: State)
    requires !Completes(streams, request, s)
    ensures FailureReply(request, ReplyOf(streams, request, s))
  {
    ExecutingReplies(streams, request, s);
  }

  /** Nothing fails. */
  function Smooth(): Streams {
    Streams(i => Opened, i => LoggedIn, i => Done(Output("", "", 0)))
  }

  /** The connection opens, and the login is refused for good. */
  function Refusing(): Streams {
    Streams(i => Opened, i => LoginFails("Authentication failed"), i => Done(Output("", "", 0)))
  }

  const FRESH := State([], [])

  lemma SmoothSucceeds(request: Request)
    requires Executable(request)
    ensures Succeeds(Smooth(), request, FRESH)
            && ReplyOf(Smooth(), request, FRESH) == ReplyFor(request, Output("", "", 0))
  {
    var streams := Smooth();
    var begun := Opening(streams, request, FRESH).0;
    var connected := State(begun.pool, begun.log + [LoginCall(LoggedIn)]);
    assert LoggingIn(streams, begun.log, MAX_LOGIN_ATTEMPTS, "") == (connected.log, None);
    assert Connecting(streams, request, FRESH) == (connected, Ready);
    var done := State(connected.pool, connected.log + [ExecCall(Done(Output("", "", 0)))]);
    assert Attempting(streams, request, connected) == (done, Completed(Output("", "", 0)));
    assert Trying(streams, request, connected, MAX_EXEC_CMD_ATTEMPTS, "") == (done, Completed(Output("", "", 0)));
  }

  lemma RefusingFails(request: Request)
    ensures !Completes(Refusing(), request, FRESH)
    ensures ReplyOf(Refusing(), request, FRESH) == ReplyFor(request, Output("", "Authentication failed", 1))
  {
    var streams := Refusing();
    var begun := Opening(streams, request, FRESH).0;
    var refused := State(begun.pool, begun.log + [LoginCall(LoginFails("Authentication failed"))]);
    assert LoggingIn(streams, begun.log, MAX_LOGIN_ATTEMPTS, "") == (refused.log, Some("Authentication failed"));
    assert Connecting(streams, request, FRESH) == (refused, LoginRefused("Authentication failed"));
  }

  /** A forked command gets the same reply, none, when it was started and when not even the login succeeded. */
  lemma ForkHidesFailure(request: Request)
    requires request.fork
    ensures Succeeds(Smooth(), request, FRESH) && !Completes(Refusing(), request, FRESH)
    ensures ReplyOf(Smooth(), request, FRESH) == ReplyOf(Refusing(), request, FRESH) == Nothing
  {
    SmoothSucceeds(request);
    RefusingFails(request);
  }

  /** Exactly when the caller can tell every call that fails, on any streams and with any connections, from every one
      that succeeds. */
  lemma FailuresShowExactly(request: Request)
    ensures (forall streams, s, failing, s' :: Succeeds(streams, request, s) && !Completes(failing, request, s')
                                               ==> ReplyOf(streams, request, s) != ReplyOf(failing, request, s'))
            <==> Telling(request)
  {
    if Telling(request) {
      forall streams, s, failing, s' | Succeeds(streams, request, s) && !Completes(failing, request, s')
        ensures ReplyOf(streams, request, s) != ReplyOf(failing, request, s')
      {
        TellingReplies(streams, request, s, failing, s');
      }
    } else {
      SmoothSucceeds(request);
      RefusingFails(request);
      assert ReplyOf(Smooth(), request, FRESH) == ReplyOf(Refusing(), request, FRESH);
    }
  }

  class SshLibrary {
    const streams: Streams
    var pool: seq<Connection>
    var log: seq<Event>

    ghost function Now(): State
      reads this
    {
      State(pool, log)
    }

    constructor (streams: Streams)
      ensures this.streams == streams && pool == [] && log == []
    {
      this.streams := streams;
      pool, log := [], [];
    }

    /** `find_connection` */
    method FindConnection(args: map<string, string>) returns (found: Option<Connection>)
      ensures found == FirstMatch(pool, args)
    {
      var i := 0;
      while i < |pool|
        invariant 0 <= i <= |pool|
        invariant FirstMatch(pool, args) == FirstMatch(pool[i..], args)
      {
        assert pool[i..][1..] == pool[i + 1..];
        OverrideChangesNothing(args, pool[i].config);
        if pool[i].config + args == pool[i].config {
          return Some(pool[i]);
        }
        i := i + 1;
      }
      found := None;
    }

    method Open(request: Request) returns (error: Option<string>)
      modifies this`pool, this`log
      ensures (Now(), error) == Opening(streams, request, old(Now()))
    {
      var outcome := streams.openings(|log|);
      log := log + [OpenCall(outcome)];
      match outcome
      case Opened =>
        var alias := if request.alias.Some? then request.alias.value else "";
        pool := pool + [Connection(|pool| + 1, alias, request.openArgs)];
        error := None;
      case OpenFails(message) => error := Some(message);
    }

    /** `login_ssh`: up to five calls, going on only after the tolerated failure. */
    method LoginSsh() returns (error: Option<string>)
      modifies this`log
      ensures (log, error) == LoggingIn(streams, old(log), MAX_LOGIN_ATTEMPTS, "")
      ensures old(log) < log && |log| <= |old(log)| + 5
      ensures forall i :: |old(log)| <= i < |log| ==> log[i] == LoginCall(streams.logins(i))
      ensures forall i :: |old(log)| <= i < |log| - 1 ==> streams.logins(i).NoSession?
      ensures error.None? <==> streams.logins(|log| - 1).LoggedIn?
      ensures error.Some? ==> streams.logins(|log| - 1).LoginFails? || |log| == |old(log)| + 5
    {
      LoggingInKeeps(streams, log, MAX_LOGIN_ATTEMPTS, "");
      var attempt := 0;
      var message := "";
      while attempt < MAX_LOGIN_ATTEMPTS
        invariant 0 <= attempt <= MAX_LOGIN_ATTEMPTS
        invariant LoggingIn(streams, old(log), MAX_LOGIN_ATTEMPTS, "")
                  == LoggingIn(streams, log, MAX_LOGIN_ATTEMPTS - attempt, message)
      {
        var outcome := streams.logins(|log|);
        log := log + [LoginCall(outcome)];
        attempt := attempt + 1;
        match outcome {
          case LoggedIn => return None;
          case NoSession(next) => message := next;
          case LoginFails(next) => return Some(next);
        }
      }
      error := Some(message);
    }

    /** Open a connection and log in. */
    method OpenAndLogin(request: Request) returns (start: Start)
      modifies this`pool, this`log
      ensures (Now(), start) == OpeningAndLoggingIn(streams, request, old(Now()))
    {
      var openError := Open(request);
      if openError.Some? {
        return OpenRefused(openError.value);
      }
      var loginError := LoginSsh();
      start := if loginError.Some? then LoginRefused(loginError.value) else Ready;
    }

    /** Switch to an existing connection or open one and log in. */
    method Connect(request: Request) returns (start: Start)
      modifies this`pool, this`log
      ensures (Now(), start) == Connecting(streams, request, old(Now()))
      ensures GoesOn(streams, request, old(log), log)
      ensures old(log) < log && NoExec(log, |old(log)|)
      ensures match FirstMatch(old(pool), request.openArgs)
              case Some(c) => log[|old(log)|] == Switched(c)
              case None => log[|old(log)|].OpenCall?
      ensures start.Ready? <==> !EndsRefused(log)
      ensures ExecCalls(log) == ExecCalls(old(log)) && LoginCalls(log) <= LoginCalls(old(log)) + MAX_LOGIN_ATTEMPTS
    {
      ConnectingKeeps(streams, request, Now());
      ConnectingGoesOn(streams, request, Now());
      var connection := FindConnection(request.openArgs);
      if connection.Some? {
        log := log + [Switched(connection.value)];
        return Ready;
      }
      start := OpenAndLogin(request);
    }

    /** After a failed execution: log in again, or start over with a new connection. */
    method Recover(request: Request, outcome: ExecOutcome) returns (recovery: Recovery)
      requires outcome.NotOpen? || outcome.Dropped?
      modifies this`pool, this`log
      ensures (Now(), recovery) == Recovering(streams, request, old(Now()), outcome)
      ensures GoesOn(streams, request, old(log), log)
      ensures old(log) < log && NoExec(log, |old(log)|)
      ensures outcome.NotOpen? ==> log[|old(log)|].LoginCall? && !recovery.Raise?
      ensures outcome.Dropped? ==>
                && |log| > |old(log)| + 1 && log[|old(log)|] == ClosedAll && log[|old(log)| + 1].OpenCall?
                && !recovery.GiveUp?
      ensures recovery.Retry? <==> !EndsRefused(log)
      ensures ExecCalls(log) == ExecCalls(old(log)) && LoginCalls(log) <= LoginCalls(old(log)) + MAX_LOGIN_ATTEMPTS
    {
      RecoveringKeeps(streams, request, Now(), outcome);
      RecoveringGoesOn(streams, request, Now(), outcome);
      if outcome.NotOpen? {
        var loginError := LoginSsh();
        return if loginError.Some? then GiveUp(loginError.value) else Retry;
      }
      pool, log := [], log + [ClosedAll];
      var start := OpenAndLogin(request);
      recovery := if start.Ready? then Retry else Raise(start.message);
    }

    /** The body of the retry loop.  Without an alias the arguments cannot be looked at, and nothing is executed. */
    method AttemptOnce(request: Request) returns (end: Attempted)
      modifies this`pool, this`log
      ensures (Now(), end) == Attempting(streams, request, old(Now()))
      ensures GoesOn(streams, request, old(log), log)
      ensures AttemptsKeep(request, old(Now()), Now(), end, 1)
    {
      AttemptingKeeps(streams, request, Now());
      AttemptingGoesOn(streams, request, Now());
      if !request.fork && request.alias.None? {
        pool, log := [], log + [ClosedAll];
        return Escaped("alias");
      }
      var outcome := Seen(request, streams.executions(|log|));
      log := log + [ExecCall(outcome)];
      if outcome.Done? {
        return Completed(outcome.output);
      }
      if outcome.Unhandled? {
        pool, log := [], log + [ClosedAll];
        return Escaped(outcome.message);
      }
      var recovery := Recover(request, outcome);
      end := EndAfter(recovery, outcome.message);
    }

    /** The retry loop. */
    method TryCommand(request: Request) returns (end: Attempted)
      modifies this`pool, this`log
      ensures (Now(), end) == Trying(streams, request, old(Now()), MAX_EXEC_CMD_ATTEMPTS, "")
      ensures GoesOn(streams, request, old(log), log)
      ensures AttemptsKeep(request, old(Now()), Now(), end, MAX_EXEC_CMD_ATTEMPTS)
    {
      TryingKeeps(streams, request, Now(), MAX_EXEC_CMD_ATTEMPTS, "");
      TryingGoesOn(streams, request, Now(), MAX_EXEC_CMD_ATTEMPTS, "");
      end := Again("");
      var attempt := 0;
      while end.Again? && attempt < MAX_EXEC_CMD_ATTEMPTS
        invariant 0 <= attempt <= MAX_EXEC_CMD_ATTEMPTS
        invariant Trying(streams, request, old(Now()), MAX_EXEC_CMD_ATTEMPTS, "")
                  == if end.Again? then Trying(streams, request, Now(), MAX_EXEC_CMD_ATTEMPTS - attempt, end.message)
                     else (Now(), end)
        decreases MAX_EXEC_CMD_ATTEMPTS - attempt
      {
        attempt := attempt + 1;
        end := AttemptOnce(request);
      }
    }

    /** `execute_ssh_command` */
    method ExecuteSshCommand(request: Request) returns (reply: Reply)
      modifies this`pool, this`log
      // The calls made, the connections left and the reply are those that the streams determine.
      ensures (Now(), reply) == Executing(streams, request, old(Now()))
      ensures CallMeets(streams, request, old(Now()), Now(), reply)
    {
      ExecutingMeets(streams, request, Now());
      reply := ConnectAndTry(request);
    }

    method ConnectAndTry(request: Request) returns (reply: Reply)
      modifies this`pool, this`log
      ensures (Now(), reply) == Executing(streams, request, old(Now()))
    {
      var start := Connect(request);
      match start
      case OpenRefused(message) => return Raised(message);
      case LoginRefused(message) => return ReplyFor(request, Output("", message, 1));
      case Ready =>
        var end := TryCommand(request);
        reply := ReplyAfter(request, end);
    }
  }

  lemma {:induction false} FirstMatchIsFirst(pool: seq<Connection>, args: map<string, string>)
    ensures match FirstMatch(pool, args)
            case Some(c) => exists i :: 0 <= i < |pool| && pool[i] == c && SubMap(args, c.config)
                                        && forall j :: 0 <= j < i ==> !SubMap(args, pool[j].config)
            case None => forall j :: 0 <= j < |pool| ==> !SubMap(args, pool[j].config)
    decreases |pool|
  {
    if pool != [] && !SubMap(args, pool[0].config) {
      FirstMatchIsFirst(pool[1..], args);
      if FirstMatch(pool[1..], args).Some? {
        var i :| 0 <= i < |pool[1..]| && pool[1..][i] == FirstMatch(pool, args).value
                 && forall j :: 0 <= j < i ==> !SubMap(args, pool[1..][j].config);
        forall j | 0 <= j < i + 1
          ensures !SubMap(args, pool[j].config)
        {
          assert j > 0 ==> pool[1..][j - 1] == pool[j];
        }
        assert pool[i + 1] == FirstMatch(pool, args).value;
      }
    }
  }
}
