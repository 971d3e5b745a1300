/** run_child of mc2dbd/src/exec.c: the select loop that feeds a child process, drains its output and enforces
    the deadline, as a step machine against an environment that answers every system call. */
module ChildLoop {
  import opened Bytes

  // ---------- the world ----------

  /** The six ends of the three pipes. */
  datatype End = StdinRead | StdinWrite | StdoutRead | StdoutWrite | StderrRead | StderrWrite

  datatype SignalName = Term | Kill

  datatype Reason = Timeout | BufferFull

  datatype Signal = Signal(name: SignalName, reason: Reason, at: int)

  /** What one call was given, and what the child writes over its life. */
  datatype Config = Config(envelope: seq<byte>, outMax: nat, errMax: nat, timeout: int,
                           childOut: seq<byte>, childErr: seq<byte>)

  const ALL: set<End> := {StdinRead, StdinWrite, StdoutRead, StdoutWrite, StderrRead, StderrWrite}
  const GRACE: int := 500
  const TRASH: nat := 256

  /** Answers of the system calls; Again stands for EAGAIN and EINTR, and a count for bytes moved. */
  datatype Io = Moved(n: nat) | Again | Failed

  datatype Select = SelectFailed | Interrupted | NothingReady | Ready(stdin: bool, stdout: bool, stderr: bool)

  datatype Env = Env(now: int, select: Select, write: Io, readOut: Io, readErr: Io)

  // ---------- the machine ----------

  /** The variables of run_child, with the calls it has made: closes and signals. */
  datatype State = State(open: set<End>, closed: multiset<End>, off: nat, written: seq<byte>, out: seq<byte>,
                         err: seq<byte>, errRead: nat, deadline: int, term: bool, kill: bool, timedOut: bool,
                         signals: seq<Signal>, expired: seq<int>)

  datatype Outcome = Repeat | Leave | IoError

  function Close(s: State, e: End): State {
    s.(open := s.open - {e}, closed := s.closed + multiset{e})
  }

  function Send(s: State, name: SignalName, reason: Reason, at: int): State {
    if name == Term then s.(term := true, signals := s.signals + [Signal(name, reason, at)])
    else s.(kill := true, signals := s.signals + [Signal(name, reason, at)])
  }

  /** After the fork the parent closes the child's ends. */
  function Start(cfg: Config, now: int): State {
    State({StdinWrite, StdoutRead, StderrRead}, multiset{StdinRead, StdoutWrite, StderrWrite}, 0, [], [], [], 0,
          now + cfg.timeout, false, false, false, [], [])
  }

  /** The write call took the next n bytes of the envelope. */
  function Advance(cfg: Config, s: State, n: nat): State
    requires s.off + n <= |cfg.envelope|
  {
    s.(off := s.off + n, written := s.written + cfg.envelope[s.off..s.off + n])
  }

  function FeedStdin(cfg: Config, s: State, w: Io): State
    requires w.Moved? ==> s.off + w.n <= |cfg.envelope|
  {
    var s' := match w
      case Moved(n) => Advance(cfg, s, n)
      case Again => s
      case Failed => Close(s, StdinWrite);
    if s'.off >= |cfg.envelope| then Close(s', StdinWrite) else s'
  }

  function DrainStdout(cfg: Config, s: State, now: int, r: Io): State
    requires |s.out| <= |cfg.childOut| && (r.Moved? && |s.out| < cfg.outMax ==> |s.out| + r.n <= |cfg.childOut|)
  {
    if |s.out| < cfg.outMax then
      match r
      case Moved(n) => if n > 0 then s.(out := s.out + cfg.childOut[|s.out|..|s.out| + n]) else Close(s, StdoutRead)
      case Again => s
      case Failed => Close(s, StdoutRead)
    else Close(if s.term then s else Send(s, Term, BufferFull, now), StdoutRead)
  }

  function DrainStderr(cfg: Config, s: State, r: Io): State
    requires s.errRead <= |cfg.childErr| && (r.Moved? ==> s.errRead + r.n <= |cfg.childErr|)
  {
    match r
    case Moved(n) =>
      if n == 0 then Close(s, StderrRead)
      else if |s.err| < cfg.errMax then
        s.(err := s.err + cfg.childErr[s.errRead..s.errRead + n], errRead := s.errRead + n)
      else s.(errRead := s.errRead + n)
    case Again => s
    case Failed => Close(s, StderrRead)
  }

  /** The deadline has passed: first SIGTERM and a grace period, then SIGKILL. */
  function Expire(s: State, now: int): (State, Outcome) {
    var s' := s.(timedOut := true, expired := s.expired + [now]);
    if !s.term then (Send(s', Term, Timeout, now).(deadline := now + GRACE), Repeat)
    else if !s.kill then (Send(s', Kill, Timeout, now), Leave)
    else (s', Leave)
  }

  // The select call answers only for the descriptors it was given, and no call moves more than it was asked for or
  // than there is.

  predicate StdinOk(cfg: Config, s: State, env: Env) {
    && (env.select.Ready? && env.select.stdin ==> StdinWrite in s.open && s.off < |cfg.envelope|)
    && (env.write.Moved? ==> s.off + env.write.n <= |cfg.envelope|)
  }

  predicate StdoutOk(cfg: Config, s: State, env: Env) {
    && (env.select.Ready? && env.select.stdout ==> StdoutRead in s.open)
    && |s.out| <= |cfg.childOut|
    && (env.readOut.Moved? && |s.out| < cfg.outMax ==> |s.out| + env.readOut.n <= cfg.outMax)
    && (env.readOut.Moved? && |s.out| < cfg.outMax ==> |s.out| + env.readOut.n <= |cfg.childOut|)
  }

  predicate StderrOk(cfg: Config, s: State, env: Env) {
    && (env.select.Ready? && env.select.stderr ==> StderrRead in s.open)
    && s.errRead <= |cfg.childErr|
    && (env.readErr.Moved? ==> s.errRead + env.readErr.n <= |cfg.childErr|)
    && (env.readErr.Moved? ==> env.readErr.n <= if |s.err| < cfg.errMax then cfg.errMax - |s.err| else TRASH)
  }

  predicate EnvOk(cfg: Config, s: State, env: Env) {
    StdinOk(cfg, s, env) && StdoutOk(cfg, s, env) && StderrOk(cfg, s, env)
  }

  // Serving the descriptors that are ready, in the order of the code.

  function ServeStdin(cfg: Config, s: State, env: Env): State
    requires StdinOk(cfg, s, env)
  {
    if env.select.Ready? && env.select.stdin then FeedStdin(cfg, s, env.write) else s
  }

  function ServeStdout(cfg: Config, s: State, env: Env): State
    requires StdoutOk(cfg, s, env)
  {
    if env.select.Ready? && env.select.stdout then DrainStdout(cfg, s, env.now, env.readOut) else s
  }

  function ServeStderr(cfg: Config, s: State, env: Env): State
    requires StderrOk(cfg, s, env)
  {
    if env.select.Ready? && env.select.stderr then DrainStderr(cfg, s, env.readErr) else s
  }

  lemma FeedLeavesOutputs(cfg: Config, s: State, env: Env)
    requires EnvOk(cfg, s, env)
    ensures StdoutOk(cfg, ServeStdin(cfg, s, env), env) && StderrOk(cfg, ServeStdin(cfg, s, env), env)
    ensures ServeStdin(cfg, s, env).out == s.out && ServeStdin(cfg, s, env).errRead == s.errRead
  {
  }

  lemma DrainLeavesStderr(cfg: Config, s: State, env: Env)
    requires StdoutOk(cfg, s, env) && StderrOk(cfg, s, env)
    ensures StderrOk(cfg, ServeStdout(cfg, s, env), env) && ServeStdout(cfg, s, env).errRead == s.errRead
  {
  }

  function Serve(cfg: Config, s: State, env: Env): State
    requires EnvOk(cfg, s, env)
  {
    FeedLeavesOutputs(cfg, s, env);
    var s1 := ServeStdin(cfg, s, env);
    DrainLeavesStderr(cfg, s1, env);
    ServeStderr(cfg, ServeStdout(cfg, s1, env), env)
  }

  /** One turn of the loop. */
  function Step(cfg: Config, s: State, env: Env): (State, Outcome)
    requires EnvOk(cfg, s, env)
  {
    if s.open == {} then (s, Leave)
    else if StdinWrite in s.open && s.off >= |cfg.envelope| then (Close(s, StdinWrite), Repeat)
    else if s.deadline - env.now <= 0 then Expire(s, env.now)
    else match env.select
      case SelectFailed => (s, IoError)
      case Interrupted => (s, Repeat)
      case NothingReady => (s, Repeat)
      case Ready(_, _, _) => (Serve(cfg, s, env), Repeat)
  }

  function CloseIf(s: State, e: End): State {
    if e in s.open then Close(s, e) else s
  }

  /** The closes after the loop. */
  function CloseAll(s: State): State {
    CloseIf(CloseIf(CloseIf(s, StdinWrite), StdoutRead), StderrRead)
  }

  function ClosePipe(s: State, read: End, write: End): State {
    CloseIf(CloseIf(s, read), write)
  }

  /** The error exit closes every end that was made and not yet closed. */
  function ErrorExit(s: State): State {
    ClosePipe(ClosePipe(ClosePipe(s, StdinRead, StdinWrite), StdoutRead, StdoutWrite), StderrRead, StderrWrite)
  }

  // ---------- what every turn keeps ----------

  /** Of the ends that were made, each one no longer open was closed exactly once, and nothing else was closed. */
  ghost predicate ClosedOnce(made: set<End>, s: State) {
    && s.open <= made
    && forall e :: s.closed[e] == if e in made && e !in s.open then 1 else 0
  }

  /** SIGTERM and SIGKILL at most once each, SIGKILL only after SIGTERM, not before the first deadline, and a full
      grace period after a SIGTERM that was sent for the deadline. */
  ghost predicate SignalsOk(s: State, first: int) {
    && |s.signals| == (if s.term then 1 else 0) + (if s.kill then 1 else 0)
    && (s.kill ==> s.term)
    && (s.term ==> s.signals[0].name == Term)
    && (s.term && s.signals[0].reason == Timeout ==> s.signals[0].at >= first && s.deadline >= s.signals[0].at + GRACE)
    && (s.kill ==> s.signals[1].name == Kill && s.signals[1].at >= first)
    && (s.kill && s.signals[0].reason == Timeout ==> s.signals[1].at >= s.signals[0].at + GRACE)
  }

  ghost predicate DeadlineOk(s: State, first: int) {
    && s.deadline >= first
    && s.deadline == (if s.signals != [] && s.signals[0].reason == Timeout then s.signals[0].at + GRACE else first)
    && (s.timedOut <==> s.expired != [])
    && (s.timedOut ==> s.term)
    && (s.signals != [] && s.signals[0].reason == Timeout ==> s.timedOut)
    && forall i :: 0 <= i < |s.expired| ==> s.expired[i] >= first
  }

  ghost predicate BuffersOk(cfg: Config, s: State) {
    && s.off <= |cfg.envelope| && s.written == cfg.envelope[..s.off]
    && |s.out| <= cfg.outMax && s.out <= cfg.childOut
    && |s.err| <= cfg.errMax && s.err <= cfg.childErr
    && |s.err| <= s.errRead <= |cfg.childErr| && (|s.err| < s.errRead ==> |s.err| == cfg.errMax)
    && (s.signals != [] && s.signals[0].reason == BufferFull ==> |s.out| == cfg.outMax)
  }

  ghost predicate Inv(cfg: Config, s: State, first: int) {
    && s.open <= {StdinWrite, StdoutRead, StderrRead} && ClosedOnce(ALL, s)
    && SignalsOk(s, first) && DeadlineOk(s, first) && BuffersOk(cfg, s)
  }

  lemma StartKeeps(cfg: Config, now: int)
    ensures Inv(cfg, Start(cfg, now), now + cfg.timeout)
  {
  }

  lemma CloseKeeps(made: set<End>, s: State, e: End)
    requires ClosedOnce(made, s) && e in s.open
    ensures ClosedOnce(made, Close(s, e))
  {
  }

  lemma CloseKeepsAll(cfg: Config, s: State, e: End, first: int)
    requires Inv(cfg, s, first) && e in s.open
    ensures Inv(cfg, Close(s, e), first)
  {
    CloseKeeps(ALL, s, e);
  }

  lemma AdvanceKeeps(cfg: Config, s: State, n: nat, first: int)
    requires Inv(cfg, s, first) && s.off + n <= |cfg.envelope|
    ensures Inv(cfg, Advance(cfg, s, n), first)
  {
    assert cfg.envelope[..s.off + n] == cfg.envelope[..s.off] + cfg.envelope[s.off..s.off + n];
  }

  lemma FeedKeeps(cfg: Config, s: State, env: Env, first: int)
    requires Inv(cfg, s, first) && EnvOk(cfg, s, env)
    ensures Inv(cfg, ServeStdin(cfg, s, env), first)
  {
    if env.select.Ready? && env.select.stdin {
      match env.write {
        case Moved(n) =>
          AdvanceKeeps(cfg, s, n, first);
          CloseKeepsAll(cfg, Advance(cfg, s, n), StdinWrite, first);
        case Again =>
        case Failed =>
          CloseKeepsAll(cfg, s, StdinWrite, first);
      }
    }
  }

  lemma DrainOutKeeps(cfg: Config, s: State, env: Env, first: int)
    requires Inv(cfg, s, first) && StdoutOk(cfg, s, env)
    ensures Inv(cfg, ServeStdout(cfg, s, env), first)
  {
    if env.select.Ready? && env.select.stdout {
      CloseKeepsAll(cfg, s, StdoutRead, first);
      if |s.out| >= cfg.outMax && !s.term {
        CloseKeepsAll(cfg, Send(s, Term, BufferFull, env.now), StdoutRead, first);
      }
    }
  }

  lemma DrainErrKeeps(cfg: Config, s: State, env: Env, first: int)
    requires Inv(cfg, s, first) && StderrOk(cfg, s, env)
    ensures Inv(cfg, ServeStderr(cfg, s, env), first)
  {
    if env.select.Ready? && env.select.stderr {
      CloseKeepsAll(cfg, s, StderrRead, first);
    }
  }

  lemma ExpireKeeps(cfg: Config, s: State, now: int, first: int)
    requires Inv(cfg, s, first) && s.deadline <= now
    ensures Inv(cfg, Expire(s, now).0, first)
  {
  }

  /** Every turn keeps the whole invariant, whatever the environment answers. */
  lemma StepKeeps(cfg: Config, s: State, env: Env, first: int)
    requires Inv(cfg, s, first) && EnvOk(cfg, s, env)
    ensures Inv(cfg, Step(cfg, s, env).0, first)
  {
    if s.open != {} {
      if StdinWrite in s.open && s.off >= |cfg.envelope| {
        CloseKeeps(ALL, s, StdinWrite);
      } else if s.deadline - env.now <= 0 {
        ExpireKeeps(cfg, s, env.now, first);
      } else if env.select.Ready? {
        FeedKeeps(cfg, s, env, first);
        FeedLeavesOutputs(cfg, s, env);
        DrainLeavesStderr(cfg, ServeStdin(cfg, s, env), env);
        DrainOutKeeps(cfg, ServeStdin(cfg, s, env), env, first);
        DrainErrKeeps(cfg, ServeStdout(cfg, ServeStdin(cfg, s, env), env), env, first);
      }
    }
  }

  // ---------- whole runs ----------

  /** The answers fit the states the loop passes through. */
  ghost predicate Plays(cfg: Config, s: State, envs: seq<Env>)
    decreases |envs|
  {
    envs == [] || (EnvOk(cfg, s, envs[0])
                   && (Step(cfg, s, envs[0]).1 == Repeat ==> Plays(cfg, Step(cfg, s, envs[0]).0, envs[1..])))
  }

  /** The loop on a sequence of answers: where it stands, and Repeat if it has not left yet. */
  ghost function Play(cfg: Config, s: State, envs: seq<Env>): (State, Outcome)
    requires Plays(cfg, s, envs)
    decreases |envs|
  {
    if envs == [] then (s, Repeat)
    else if Step(cfg, s, envs[0]).1 == Repeat then Play(cfg, Step(cfg, s, envs[0]).0, envs[1..])
    else Step(cfg, s, envs[0])
  }

  lemma {:induction false} PlayKeeps(cfg: Config, s: State, envs: seq<Env>, first: int)
    requires Inv(cfg, s, first) && Plays(cfg, s, envs)
    ensures Inv(cfg, Play(cfg, s, envs).0, first)
    ensures Play(cfg, s, envs).1 == Leave ==> Play(cfg, s, envs).0.open == {} || Play(cfg, s, envs).0.kill
    decreases |envs|
  {
    if envs != [] {
      StepKeeps(cfg, s, envs[0], first);
      if Step(cfg, s, envs[0]).1 == Repeat {
        PlayKeeps(cfg, Step(cfg, s, envs[0]).0, envs[1..], first);
      }
    }
  }

  lemma CloseIfKeeps(made: set<End>, s: State, e: End)
    requires ClosedOnce(made, s)
    ensures ClosedOnce(made, CloseIf(s, e)) && CloseIf(s, e).open == s.open - {e}
  {
  }

  lemma CloseAllClosesAll(s: State)
    requires ClosedOnce(ALL, s) && s.open <= {StdinWrite, StdoutRead, StderrRead}
    ensures CloseAll(s).open == {} && CloseAll(s).closed == multiset(ALL)
  {
    var a := CloseIf(s, StdinWrite);
    CloseIfKeeps(ALL, s, StdinWrite);
    var b := CloseIf(a, StdoutRead);
    CloseIfKeeps(ALL, a, StdoutRead);
    CloseIfKeeps(ALL, b, StderrRead);
  }

  lemma ClosePipeKeeps(made: set<End>, s: State, read: End, write: End)
    requires ClosedOnce(made, s)
    ensures ClosedOnce(made, ClosePipe(s, read, write)) && ClosePipe(s, read, write).open == s.open - {read, write}
  {
    CloseIfKeeps(made, s, read);
    CloseIfKeeps(made, CloseIf(s, read), write);
  }

  /** From wherever the error exit is taken, with however many pipes made, every end made is closed exactly once. */
  lemma ErrorExitClosesAll(made: set<End>, s: State)
    requires ClosedOnce(made, s)
    ensures ErrorExit(s).open == {} && ErrorExit(s).closed == multiset(made)
  {
    var a := ClosePipe(s, StdinRead, StdinWrite);
    ClosePipeKeeps(made, s, StdinRead, StdinWrite);
    var b := ClosePipe(a, StdoutRead, StdoutWrite);
    ClosePipeKeeps(made, a, StdoutRead, StdoutWrite);
    ClosePipeKeeps(made, b, StderrRead, StderrWrite);
    var c := ClosePipe(b, StderrRead, StderrWrite);
    forall e: End
      ensures e !in c.open
    {
      assert c.open == s.open - {StdinRead, StdinWrite} - {StdoutRead, StdoutWrite} - {StderrRead, StderrWrite};
      match e {
        case StdinRead =>
        case StdinWrite =>
        case StdoutRead =>
        case StdoutWrite =>
        case StderrRead =>
        case StderrWrite =>
      }
    }
  }

  /** Every run of the loop that ended: all six ends closed exactly once, the signals and buffers as they must be,
      and a time-out reported exactly when a deadline check failed, none of them before the deadline. */
  lemma RunIsSafe(cfg: Config, now: int, envs: seq<Env>)
    requires Plays(cfg, Start(cfg, now), envs)
    ensures var (t, o) := Play(cfg, Start(cfg, now), envs);
      && SignalsOk(t, now + cfg.timeout) && DeadlineOk(t, now + cfg.timeout) && BuffersOk(cfg, t)
      && (o == Leave ==> CloseAll(t).open == {} && CloseAll(t).closed == multiset(ALL))
      && (o == IoError ==> ErrorExit(t).open == {} && ErrorExit(t).closed == multiset(ALL))
  {
    var first := now + cfg.timeout;
    var (t, o) := Play(cfg, Start(cfg, now), envs);
    StartKeeps(cfg, now);
    PlayKeeps(cfg, Start(cfg, now), envs, first);
    CloseAllClosesAll(t);
    ErrorExitClosesAll(ALL, t);
  }

  // ---------- which ends a turn closes ----------

  /** The turn gets as far as serving descriptors. */
  predicate Serves(cfg: Config, s: State, env: Env) {
    && s.open != {} && !(StdinWrite in s.open && s.off >= |cfg.envelope|)
    && env.now < s.deadline && env.select.Ready?
  }

  /** The stream of this end is over in this turn: finished, failed, or full in the case of stdout. */
  predicate Over(cfg: Config, s: State, env: Env, e: End) {
    match e
    case StdinWrite =>
      || (StdinWrite in s.open && s.off >= |cfg.envelope|)
      || (Serves(cfg, s, env) && env.select.stdin
          && (env.write == Failed || (env.write.Moved? && s.off + env.write.n == |cfg.envelope|)))
    case StdoutRead =>
      Serves(cfg, s, env) && env.select.stdout
      && (|s.out| >= cfg.outMax || env.readOut == Failed || env.readOut == Moved(0))
    case StderrRead =>
      Serves(cfg, s, env) && env.select.stderr && (env.readErr == Failed || env.readErr == Moved(0))
    case _ => false
  }

  lemma FeedCloses(cfg: Config, s: State, env: Env)
    requires EnvOk(cfg, s, env) && Serves(cfg, s, env)
    ensures ServeStdin(cfg, s, env).open == if Over(cfg, s, env, StdinWrite) then s.open - {StdinWrite} else s.open
  {
  }

  lemma DrainOutCloses(cfg: Config, s: State, env: Env, first: State)
    requires StdoutOk(cfg, s, env) && Serves(cfg, first, env) && s.out == first.out
    ensures ServeStdout(cfg, s, env).open == if Over(cfg, first, env, StdoutRead) then s.open - {StdoutRead} else s.open
  {
  }

  lemma DrainErrCloses(cfg: Config, s: State, env: Env, first: State)
    requires StderrOk(cfg, s, env) && Serves(cfg, first, env)
    ensures ServeStderr(cfg, s, env).open == if Over(cfg, first, env, StderrRead) then s.open - {StderrRead} else s.open
  {
  }

  lemma ServeCloses(cfg: Config, s: State, env: Env, e: End)
    requires EnvOk(cfg, s, env) && Serves(cfg, s, env)
    ensures e in Serve(cfg, s, env).open <==> e in s.open && !Over(cfg, s, env, e)
  {
    FeedCloses(cfg, s, env);
    FeedLeavesOutputs(cfg, s, env);
    DrainLeavesStderr(cfg, ServeStdin(cfg, s, env), env);
    DrainOutCloses(cfg, ServeStdin(cfg, s, env), env, s);
    DrainErrCloses(cfg, ServeStdout(cfg, ServeStdin(cfg, s, env), env), env, s);
  }

  /** A turn closes an end exactly when its stream is over. */
  lemma TurnCloses(cfg: Config, s: State, env: Env, e: End)
    requires EnvOk(cfg, s, env)
    ensures e in Step(cfg, s, env).0.open <==> e in s.open && !Over(cfg, s, env, e)
  {
    if Serves(cfg, s, env) {
      ServeCloses(cfg, s, env, e);
    }
  }

  /** The stream was over in some turn of a run. */
  ghost predicate OverIn(cfg: Config, s: State, envs: seq<Env>, e: End)
    requires Plays(cfg, s, envs)
    decreases |envs|
  {
    envs != []
    && (Over(cfg, s, envs[0], e)
        || (Step(cfg, s, envs[0]).1 == Repeat && OverIn(cfg, Step(cfg, s, envs[0]).0, envs[1..], e)))
  }

  /** Over a whole run an end is closed exactly when its stream was over in some turn. */
  lemma {:induction false} RunCloses(cfg: Config, s: State, envs: seq<Env>, e: End)
    requires Plays(cfg, s, envs)
    ensures e in Play(cfg, s, envs).0.open <==> e in s.open && !OverIn(cfg, s, envs, e)
    decreases |envs|
  {
    if envs != [] {
      TurnCloses(cfg, s, envs[0], e);
      if Step(cfg, s, envs[0]).1 == Repeat {
        RunCloses(cfg, Step(cfg, s, envs[0]).0, envs[1..], e);
      }
    }
  }

  /** All clock answers come before the deadline. */
  ghost predicate OnTime(envs: seq<Env>, first: int) {
    forall i :: 0 <= i < |envs| ==> envs[i].now < first
  }

  ghost predicate SameClock(s: State, t: State) {
    s.expired == t.expired && s.kill == t.kill
  }

  lemma FeedLeavesClock(cfg: Config, s: State, env: Env)
    requires StdinOk(cfg, s, env)
    ensures SameClock(s, ServeStdin(cfg, s, env))
  {
  }

  lemma DrainOutLeavesClock(cfg: Config, s: State, env: Env)
    requires StdoutOk(cfg, s, env)
    ensures SameClock(s, ServeStdout(cfg, s, env))
  {
  }

  lemma DrainErrLeavesClock(cfg: Config, s: State, env: Env)
    requires StderrOk(cfg, s, env)
    ensures SameClock(s, ServeStderr(cfg, s, env))
  {
  }

  lemma ServeLeavesClock(cfg: Config, s: State, env: Env)
    requires EnvOk(cfg, s, env)
    ensures SameClock(s, Serve(cfg, s, env))
  {
    FeedLeavesClock(cfg, s, env);
    FeedLeavesOutputs(cfg, s, env);
    DrainLeavesStderr(cfg, ServeStdin(cfg, s, env), env);
    DrainOutLeavesClock(cfg, ServeStdin(cfg, s, env), env);
    DrainErrLeavesClock(cfg, ServeStdout(cfg, ServeStdin(cfg, s, env), env), env);
  }

  lemma StepOnTime(cfg: Config, s: State, env: Env, first: int)
    requires Inv(cfg, s, first) && EnvOk(cfg, s, env) && s.expired == [] && env.now < first
    ensures Step(cfg, s, env).0.expired == []
  {
    ServeLeavesClock(cfg, s, env);
  }

  lemma {:induction false} PlayOnTime(cfg: Config, s: State, envs: seq<Env>, first: int)
    requires Inv(cfg, s, first) && Plays(cfg, s, envs) && s.expired == [] && OnTime(envs, first)
    ensures Play(cfg, s, envs).0.expired == []
    decreases |envs|
  {
    if envs != [] {
      StepKeeps(cfg, s, envs[0], first);
      StepOnTime(cfg, s, envs[0], first);
      if Step(cfg, s, envs[0]).1 == Repeat {
        PlayOnTime(cfg, Step(cfg, s, envs[0]).0, envs[1..], first);
      }
    }
  }

  /** A run that is on time goes on as long as some stream is not over, and once all three are, finished or failed,
      the next turn leaves without a time-out. */
  lemma LeavesWhenOver(cfg: Config, now: int, envs: seq<Env>, env: Env)
    requires Plays(cfg, Start(cfg, now), envs) && OnTime(envs, now + cfg.timeout)
    requires Play(cfg, Start(cfg, now), envs).1 == Repeat
    requires EnvOk(cfg, Play(cfg, Start(cfg, now), envs).0, env) && env.now < now + cfg.timeout
    ensures Plays(cfg, Start(cfg, now), envs + [env])
    ensures Play(cfg, Start(cfg, now), envs + [env]) == Step(cfg, Play(cfg, Start(cfg, now), envs).0, env)
    ensures var t := Play(cfg, Start(cfg, now), envs).0;
      && t.expired == []
      && (Step(cfg, t, env).1 == Leave <==>
            && OverIn(cfg, Start(cfg, now), envs, StdinWrite)
            && OverIn(cfg, Start(cfg, now), envs, StdoutRead)
            && OverIn(cfg, Start(cfg, now), envs, StderrRead))
      && (Step(cfg, t, env).1 == Leave ==> Step(cfg, t, env).0 == t)
  {
    var t := Play(cfg, Start(cfg, now), envs).0;
    StartKeeps(cfg, now);
    PlayKeeps(cfg, Start(cfg, now), envs, now + cfg.timeout);
    PlayOnTime(cfg, Start(cfg, now), envs, now + cfg.timeout);
    RunCloses(cfg, Start(cfg, now), envs, StdinWrite);
    RunCloses(cfg, Start(cfg, now), envs, StdoutRead);
    RunCloses(cfg, Start(cfg, now), envs, StderrRead);
    AllClosed(t);
    LeavesIff(cfg, t, env, now + cfg.timeout);
    PlayLonger(cfg, Start(cfg, now), envs, env);
  }

  lemma {:induction false} PlayLonger(cfg: Config, s: State, envs: seq<Env>, env: Env)
    requires Plays(cfg, s, envs) && Play(cfg, s, envs).1 == Repeat && EnvOk(cfg, Play(cfg, s, envs).0, env)
    ensures Plays(cfg, s, envs + [env]) && Play(cfg, s, envs + [env]) == Step(cfg, Play(cfg, s, envs).0, env)
    decreases |envs|
  {
    if envs == [] {
      OneTurn(cfg, s, env);
      assert [] + [env] == [env];
    } else {
      PlayLonger(cfg, Step(cfg, s, envs[0]).0, envs[1..], env);
      assert (envs + [env])[1..] == envs[1..] + [env];
    }
  }

  lemma OneTurn(cfg: Config, s: State, env: Env)
    requires EnvOk(cfg, s, env)
    ensures Plays(cfg, s, [env]) && Play(cfg, s, [env]) == Step(cfg, s, env)
  {
    assert [env][1..] == [];
    assert Plays(cfg, Step(cfg, s, env).0, []);
    assert Play(cfg, Step(cfg, s, env).0, []) == (Step(cfg, s, env).0, Repeat);
  }

  lemma AllClosed(s: State)
    requires s.open <= {StdinWrite, StdoutRead, StderrRead}
    ensures s.open == {} <==> StdinWrite !in s.open && StdoutRead !in s.open && StderrRead !in s.open
  {
  }

  lemma LeavesIff(cfg: Config, s: State, env: Env, first: int)
    requires Inv(cfg, s, first) && EnvOk(cfg, s, env) && s.expired == [] && env.now < first
    ensures Step(cfg, s, env).1 == Leave <==> s.open == {}
    ensures Step(cfg, s, env).1 == Leave ==> Step(cfg, s, env).0 == s
  {
  }

  /** A turn at or after the deadline that has no stdin to close sends what is due: SIGTERM first, then SIGKILL. */
  lemma LateTurnSignals(cfg: Config, s: State, env: Env, first: int)
    requires Inv(cfg, s, first) && EnvOk(cfg, s, env) && s.open != {} && env.now >= s.deadline
    requires StdinWrite !in s.open || s.off < |cfg.envelope|
    ensures var (t, o) := Step(cfg, s, env);
      && t.timedOut && t.expired == s.expired + [env.now]
      && (!s.term ==> o == Repeat && t.signals == s.signals + [Signal(Term, Timeout, env.now)]
                      && t.deadline == env.now + 500)
      && (s.term && !s.kill ==> o == Leave && t.signals == s.signals + [Signal(Kill, Timeout, env.now)])
  {
  }

  /** A child that exits without reading its input: the write fails, both outputs end, and the loop leaves. */
  lemma DeafChildExits(cfg: Config)
    requires cfg == Config([65], 1, 1, 1000, [], [])
    ensures var env := Env(0, Ready(true, true, true), Failed, Moved(0), Moved(0));
      && EnvOk(cfg, Start(cfg, 0), env) && Step(cfg, Start(cfg, 0), env).1 == Repeat
      && Step(cfg, Start(cfg, 0), env).0.open == {} && Step(cfg, Start(cfg, 0), env).0.signals == []
  {
    var env := Env(0, Ready(true, true, true), Failed, Moved(0), Moved(0));
    var s := Start(cfg, 0);
    var s1 := ServeStdin(cfg, s, env);
    assert s1 == Close(s, StdinWrite);
    var s2 := ServeStdout(cfg, s1, env);
    assert s2 == Close(s1, StdoutRead);
    assert ServeStderr(cfg, s2, env) == Close(s2, StderrRead);
  }

  // ---------- nothing lost ----------

  /** An environment that answers reads of nothing only at the end of the stream, and never fails a transfer. */
  predicate Honest(cfg: Config, s: State, env: Env) {
    && !env.write.Failed? && !env.readOut.Failed? && !env.readErr.Failed?
    && (env.readOut == Moved(0) && |s.out| < cfg.outMax ==> |s.out| == |cfg.childOut|)
    && (env.readErr == Moved(0) ==> s.errRead == |cfg.childErr|)
  }

  ghost predicate HonestPlay(cfg: Config, s: State, envs: seq<Env>)
    requires Plays(cfg, s, envs)
    decreases |envs|
  {
    envs == [] || (Honest(cfg, s, envs[0])
                   && (Step(cfg, s, envs[0]).1 == Repeat ==> HonestPlay(cfg, Step(cfg, s, envs[0]).0, envs[1..])))
  }

  /** A closed stream has been moved in full, unless the child was told to stop. */
  ghost predicate Drained(cfg: Config, s: State) {
    && (StdinWrite !in s.open ==> s.off == |cfg.envelope|)
    && (StdoutRead !in s.open && !s.term ==> s.out == cfg.childOut)
    && (StderrRead !in s.open ==> s.errRead == |cfg.childErr|)
  }

  lemma FeedMoves(cfg: Config, s: State, env: Env, first: int)
    requires Inv(cfg, s, first) && StdinOk(cfg, s, env) && !env.write.Failed? && Drained(cfg, s)
    ensures Drained(cfg, ServeStdin(cfg, s, env))
  {
  }

  lemma DrainOutMoves(cfg: Config, s: State, env: Env, first: int)
    requires Inv(cfg, s, first) && StdoutOk(cfg, s, env) && Honest(cfg, s, env) && Drained(cfg, s)
    ensures Drained(cfg, ServeStdout(cfg, s, env))
  {
  }

  lemma DrainErrMoves(cfg: Config, s: State, env: Env)
    requires StderrOk(cfg, s, env) && !env.readErr.Failed? && Drained(cfg, s)
    requires env.readErr == Moved(0) ==> s.errRead == |cfg.childErr|
    requires StderrRead in s.open || !env.select.Ready? || !env.select.stderr
    ensures Drained(cfg, ServeStderr(cfg, s, env))
  {
  }

  lemma StepMoves(cfg: Config, s: State, env: Env, first: int)
    requires Inv(cfg, s, first) && EnvOk(cfg, s, env) && Honest(cfg, s, env) && Drained(cfg, s)
    ensures Drained(cfg, Step(cfg, s, env).0)
  {
    if s.open != {} && (StdinWrite !in s.open || s.off < |cfg.envelope|) && s.deadline > env.now {
      FeedKeeps(cfg, s, env, first);
      FeedMoves(cfg, s, env, first);
      FeedLeavesOutputs(cfg, s, env);
      DrainLeavesStderr(cfg, ServeStdin(cfg, s, env), env);
      DrainOutMoves(cfg, ServeStdin(cfg, s, env), env, first);
      DrainErrMoves(cfg, ServeStdout(cfg, ServeStdin(cfg, s, env), env), env);
    }
  }

  lemma {:induction false} PlayMoves(cfg: Config, s: State, envs: seq<Env>, first: int)
    requires Inv(cfg, s, first) && Plays(cfg, s, envs) && HonestPlay(cfg, s, envs) && Drained(cfg, s)
    ensures Drained(cfg, Play(cfg, s, envs).0)
    decreases |envs|
  {
    if envs != [] {
      StepKeeps(cfg, s, envs[0], first);
      StepMoves(cfg, s, envs[0], first);
      if Step(cfg, s, envs[0]).1 == Repeat {
        PlayMoves(cfg, Step(cfg, s, envs[0]).0, envs[1..], first);
      }
    }
  }

  /** A run that ends without a signal has delivered the whole envelope and holds everything the child wrote on
      stdout, and on stderr as far as the buffer goes. */
  lemma NothingLost(cfg: Config, now: int, envs: seq<Env>)
    requires Plays(cfg, Start(cfg, now), envs) && HonestPlay(cfg, Start(cfg, now), envs)
    requires Play(cfg, Start(cfg, now), envs).1 == Leave && !Play(cfg, Start(cfg, now), envs).0.term
    ensures var t := Play(cfg, Start(cfg, now), envs).0;
      && t.off == |cfg.envelope| && t.out == cfg.childOut
      && t.err == cfg.childErr[..if cfg.errMax < |cfg.childErr| then cfg.errMax else |cfg.childErr|]
      && !t.timedOut
  {
    StartKeeps(cfg, now);
    PlayKeeps(cfg, Start(cfg, now), envs, now + cfg.timeout);
    PlayMoves(cfg, Start(cfg, now), envs, now + cfg.timeout);
  }

  // ---------- when the child is told to stop ----------

  /** A child that fills the buffer has been told to stop by the time its output is closed. */
  ghost predicate FullIsSignalled(cfg: Config, s: State) {
    StdoutRead !in s.open && |cfg.childOut| >= cfg.outMax ==> s.term
  }

  lemma FeedSignals(cfg: Config, s: State, env: Env)
    requires StdinOk(cfg, s, env) && FullIsSignalled(cfg, s)
    ensures FullIsSignalled(cfg, ServeStdin(cfg, s, env))
  {
  }

  lemma DrainOutSignals(cfg: Config, s: State, env: Env)
    requires StdoutOk(cfg, s, env) && Honest(cfg, s, env) && FullIsSignalled(cfg, s)
    ensures FullIsSignalled(cfg, ServeStdout(cfg, s, env))
  {
  }

  lemma DrainErrSignals(cfg: Config, s: State, env: Env)
    requires StderrOk(cfg, s, env) && FullIsSignalled(cfg, s)
    ensures FullIsSignalled(cfg, ServeStderr(cfg, s, env))
  {
  }

  lemma ServeSignals(cfg: Config, s: State, env: Env)
    requires EnvOk(cfg, s, env) && Honest(cfg, s, env) && FullIsSignalled(cfg, s)
    ensures FullIsSignalled(cfg, Serve(cfg, s, env))
  {
    FeedSignals(cfg, s, env);
    FeedLeavesOutputs(cfg, s, env);
    DrainLeavesStderr(cfg, ServeStdin(cfg, s, env), env);
    DrainOutSignals(cfg, ServeStdin(cfg, s, env), env);
    DrainErrSignals(cfg, ServeStdout(cfg, ServeStdin(cfg, s, env), env), env);
  }

  lemma StepSignals(cfg: Config, s: State, env: Env)
    requires EnvOk(cfg, s, env) && Honest(cfg, s, env) && FullIsSignalled(cfg, s)
    ensures FullIsSignalled(cfg, Step(cfg, s, env).0)
  {
    ServeSignals(cfg, s, env);
  }

  lemma {:induction false} PlaySignals(cfg: Config, s: State, envs: seq<Env>)
    requires Plays(cfg, s, envs) && HonestPlay(cfg, s, envs) && FullIsSignalled(cfg, s)
    ensures FullIsSignalled(cfg, Play(cfg, s, envs).0)
    decreases |envs|
  {
    if envs != [] {
      StepSignals(cfg, s, envs[0]);
      if Step(cfg, s, envs[0]).1 == Repeat {
        PlaySignals(cfg, Step(cfg, s, envs[0]).0, envs[1..]);
      }
    }
  }

  /** A run that ends without a failed deadline check sent SIGTERM exactly when the child's output fills the buffer:
      output that fits exactly is treated like output that is too long. */
  lemma SignalledIffFull(cfg: Config, now: int, envs: seq<Env>)
    requires Plays(cfg, Start(cfg, now), envs) && HonestPlay(cfg, Start(cfg, now), envs)
    requires Play(cfg, Start(cfg, now), envs).1 == Leave && Play(cfg, Start(cfg, now), envs).0.expired == []
    ensures Play(cfg, Start(cfg, now), envs).0.term <==> |cfg.childOut| >= cfg.outMax
  {
    StartKeeps(cfg, now);
    PlayKeeps(cfg, Start(cfg, now), envs, now + cfg.timeout);
    PlaySignals(cfg, Start(cfg, now), envs);
  }

  /** A child that writes one byte into a buffer for one byte: its output is read, then the end of both streams. */
  const FIT: Config := Config([], 1, 1, 1000, [65], [])

  function FitTurn(k: nat): Env {
    if k == 1 then Env(1, Ready(false, true, false), Again, Moved(1), Again)
    else if k == 2 then Env(2, Ready(false, true, true), Again, Moved(0), Moved(0))
    else Env(k, NothingReady, Again, Again, Again)
  }

  function FitState(k: nat): State {
    var s1 := Close(Start(FIT, 0), StdinWrite);
    var s2 := s1.(out := [65]);
    if k == 0 then Start(FIT, 0) else if k == 1 then s1 else if k == 2 then s2
    else Close(Close(Send(s2, Term, BufferFull, 2), StdoutRead), StderrRead)
  }

  lemma FitStep(k: nat)
    requires k <= 3
    ensures EnvOk(FIT, FitState(k), FitTurn(k)) && Honest(FIT, FitState(k), FitTurn(k))
    ensures Step(FIT, FitState(k), FitTurn(k)) == (FitState(k + 1), if k == 3 then Leave else Repeat)
  {
    assert [] + FIT.childOut[0..1] == [65];
  }

  /** Output that fits its buffer exactly is answered with SIGTERM, well before the deadline. */
  lemma ExactFitIsSignalled()
    ensures var envs := [FitTurn(0), FitTurn(1), FitTurn(2), FitTurn(3)];
      && Plays(FIT, Start(FIT, 0), envs) && HonestPlay(FIT, Start(FIT, 0), envs)
      && var (t, o) := Play(FIT, Start(FIT, 0), envs);
         o == Leave && t.out == FIT.childOut && t.expired == [] && t.signals == [Signal(Term, BufferFull, 2)]
  {
    FitStep(3);
    FitStep(2);
    PlayOn(FIT, FitState(2), FitTurn(2), [FitTurn(3)]);
    FitStep(1);
    PlayOn(FIT, FitState(1), FitTurn(1), [FitTurn(2)] + [FitTurn(3)]);
    FitStep(0);
    PlayOn(FIT, FitState(0), FitTurn(0), [FitTurn(1)] + ([FitTurn(2)] + [FitTurn(3)]));
    assert [FitTurn(0)] + ([FitTurn(1)] + ([FitTurn(2)] + [FitTurn(3)]))
        == [FitTurn(0), FitTurn(1), FitTurn(2), FitTurn(3)];
  }

  /** A turn in front of a run. */
  lemma PlayOn(cfg: Config, s: State, env: Env, rest: seq<Env>)
    requires EnvOk(cfg, s, env) && Honest(cfg, s, env) && Step(cfg, s, env).1 == Repeat
    requires Plays(cfg, Step(cfg, s, env).0, rest) && HonestPlay(cfg, Step(cfg, s, env).0, rest)
    ensures Plays(cfg, s, [env] + rest) && HonestPlay(cfg, s, [env] + rest)
    ensures Play(cfg, s, [env] + rest) == Play(cfg, Step(cfg, s, env).0, rest)
  {
    assert ([env] + rest)[1..] == rest;
  }

  // ---------- progress ----------

  function Left(s: State, e: End): nat {
    if e in s.open then 1 else 0
  }

  /** What a run can still use up: bytes, open ends and the one SIGTERM. */
  function Budget(cfg: Config, s: State): int {
    |cfg.envelope| - s.off + |cfg.childOut| - |s.out| + |cfg.childErr| - s.errRead
    + Left(s, StdinWrite) + Left(s, StdoutRead) + Left(s, StderrRead) + (if s.term then 0 else 1)
  }

  ghost predicate Spends(cfg: Config, s: State, t: State) {
    t == s || Budget(cfg, t) < Budget(cfg, s)
  }

  lemma FeedSpends(cfg: Config, s: State, env: Env)
    requires StdinOk(cfg, s, env)
    ensures Spends(cfg, s, ServeStdin(cfg, s, env))
  {
  }

  lemma DrainOutSpends(cfg: Config, s: State, env: Env)
    requires StdoutOk(cfg, s, env)
    ensures Spends(cfg, s, ServeStdout(cfg, s, env))
  {
  }

  lemma DrainErrSpends(cfg: Config, s: State, env: Env)
    requires StderrOk(cfg, s, env)
    ensures Spends(cfg, s, ServeStderr(cfg, s, env))
  {
  }

  lemma ServeSpends(cfg: Config, s: State, env: Env)
    requires EnvOk(cfg, s, env)
    ensures Spends(cfg, s, Serve(cfg, s, env))
  {
    FeedSpends(cfg, s, env);
    FeedLeavesOutputs(cfg, s, env);
    DrainLeavesStderr(cfg, ServeStdin(cfg, s, env), env);
    DrainOutSpends(cfg, ServeStdin(cfg, s, env), env);
    DrainErrSpends(cfg, ServeStdout(cfg, ServeStdin(cfg, s, env), env), env);
  }

  /** A turn that goes round again either uses up budget or changes nothing, and the latter only before the
      deadline: the loop cannot spin past it. */
  lemma TurnMakesProgress(cfg: Config, s: State, env: Env)
    requires EnvOk(cfg, s, env) && Step(cfg, s, env).1 == Repeat
    ensures Budget(cfg, Step(cfg, s, env).0) < Budget(cfg, s) || (Step(cfg, s, env).0 == s && env.now < s.deadline)
  {
    ServeSpends(cfg, s, env);
  }

  /** How many turns of a run changed anything before the loop left. */
  ghost function Changes(cfg: Config, s: State, envs: seq<Env>): nat
    requires Plays(cfg, s, envs)
    decreases |envs|
  {
    if envs == [] || Step(cfg, s, envs[0]).1 != Repeat then 0
    else (if Step(cfg, s, envs[0]).0 == s then 0 else 1) + Changes(cfg, Step(cfg, s, envs[0]).0, envs[1..])
  }

  /** However long a run is, the turns that do anything are bounded by the bytes to move and four. */
  lemma {:induction false} ChangesAreBounded(cfg: Config, s: State, envs: seq<Env>, first: int)
    requires Inv(cfg, s, first) && Plays(cfg, s, envs)
    ensures Changes(cfg, s, envs) <= Budget(cfg, s) <= |cfg.envelope| + |cfg.childOut| + |cfg.childErr| + 4
    decreases |envs|
  {
    if envs != [] && Step(cfg, s, envs[0]).1 == Repeat {
      StepKeeps(cfg, s, envs[0], first);
      TurnMakesProgress(cfg, s, envs[0]);
      ChangesAreBounded(cfg, Step(cfg, s, envs[0]).0, envs[1..], first);
    }
  }

  // ---------- the loop as the code runs it ----------

  datatype Report = Unfinished | Exited | TimedOut | Broken

  /** The variables of run_child in fields; the streams of the child and the calls made are there for the proof. */
  class ChildRun {
    const cfg: Config
    ghost const first: int
    var open: set<End>
    var off: nat
    ghost var written: seq<byte>
    var out: seq<byte>
    var err: seq<byte>
    var errRead: nat
    var deadline: int
    var term: bool
    var kill: bool
    var timedOut: bool
    ghost var closed: multiset<End>
    ghost var signals: seq<Signal>
    ghost var expired: seq<int>

    ghost function Now(): State
      reads this
    {
      State(open, closed, off, written, out, err, errRead, deadline, term, kill, timedOut, signals, expired)
    }

    ghost predicate Valid()
      reads this
    {
      Inv(cfg, Now(), first)
    }

    constructor (cfg: Config, now: int)
      ensures Valid() && this.cfg == cfg && first == now + cfg.timeout && Now() == Start(cfg, now)
    {
      this.cfg := cfg;
      first := now + cfg.timeout;
      open := {StdinWrite, StdoutRead, StderrRead};
      closed := multiset{StdinRead, StdoutWrite, StderrWrite};
      off, written, out, err, errRead := 0, [], [], [], 0;
      deadline := now + cfg.timeout;
      term, kill, timedOut := false, false, false;
      signals, expired := [], [];
      new;
      StartKeeps(cfg, now);
    }

    method CloseEnd(e: End)
      modifies this
      ensures Now() == Close(old(Now()), e)
    {
      open := open - {e};
      closed := closed + multiset{e};
    }

    method SendTerm(reason: Reason, at: int)
      modifies this
      ensures Now() == Send(old(Now()), Term, reason, at)
    {
      term := true;
      signals := signals + [Signal(Term, reason, at)];
    }

    method WriteStdin(env: Env)
      requires StdinOk(cfg, Now(), env)
      modifies this
      ensures Now() == ServeStdin(cfg, old(Now()), env)
    {
      if env.select.Ready? && env.select.stdin {
        if env.write.Moved? {
          written := written + cfg.envelope[off..off + env.write.n];
          off := off + env.write.n;
        } else if env.write.Failed? {
          CloseEnd(StdinWrite);
        }
        if off >= |cfg.envelope| {
          CloseEnd(StdinWrite);
        }
      }
    }

    method ReadStdout(env: Env)
      requires StdoutOk(cfg, Now(), env)
      modifies this
      ensures Now() == ServeStdout(cfg, old(Now()), env)
    {
      if env.select.Ready? && env.select.stdout {
        if |out| < cfg.outMax {
          if env.readOut.Moved? && env.readOut.n > 0 {
            out := out + cfg.childOut[|out|..|out| + env.readOut.n];
          } else if !env.readOut.Again? {
            CloseEnd(StdoutRead);
          }
        } else {
          if !term {
            SendTerm(BufferFull, env.now);
          }
          CloseEnd(StdoutRead);
        }
      }
    }

    method ReadStderr(env: Env)
      requires StderrOk(cfg, Now(), env)
      modifies this
      ensures Now() == ServeStderr(cfg, old(Now()), env)
    {
      if env.select.Ready? && env.select.stderr {
        if env.readErr.Moved? && env.readErr.n > 0 {
          if |err| < cfg.errMax {
            err := err + cfg.childErr[errRead..errRead + env.readErr.n];
          }
          errRead := errRead + env.readErr.n;
        } else if !env.readErr.Again? {
          CloseEnd(StderrRead);
        }
      }
    }

    method ServeReady(env: Env)
      requires EnvOk(cfg, Now(), env)
      modifies this
      ensures Now() == Serve(cfg, old(Now()), env)
    {
      FeedLeavesOutputs(cfg, Now(), env);
      WriteStdin(env);
      DrainLeavesStderr(cfg, Now(), env);
      ReadStdout(env);
      ReadStderr(env);
    }

    method PassDeadline(now: int) returns (o: Outcome)
      modifies this
      ensures (Now(), o) == Expire(old(Now()), now)
    {
      timedOut := true;
      expired := expired + [now];
      if !term {
        SendTerm(Timeout, now);
        deadline := now + GRACE;
        return Repeat;
      }
      if !kill {
        kill := true;
        signals := signals + [Signal(Kill, Timeout, now)];
      }
      return Leave;
    }

    /** One turn of the for loop. */
    method Turn(env: Env) returns (o: Outcome)
      requires EnvOk(cfg, Now(), env)
      modifies this
      ensures (Now(), o) == Step(cfg, old(Now()), env)
    {
      o := Repeat;
      if open == {} {
        o := Leave;
      } else if StdinWrite in open && off >= |cfg.envelope| {
        CloseEnd(StdinWrite);
      } else if deadline - env.now <= 0 {
        o := PassDeadline(env.now);
      } else if env.select.SelectFailed? {
        o := IoError;
      } else if env.select.Ready? {
        ServeReady(env);
      }
    }

    /** The closes on the way out. */
    method Finish()
      requires Valid()
      modifies this
      ensures Now() == old(Now()).(open := {}, closed := multiset(ALL))
    {
      CloseAllClosesAll(Now());
      if StdinWrite in open {
        CloseEnd(StdinWrite);
      }
      if StdoutRead in open {
        CloseEnd(StdoutRead);
      }
      if StderrRead in open {
        CloseEnd(StderrRead);
      }
    }

    /** The for loop on a sequence of answers. */
    method Loop(envs: seq<Env>) returns (o: Outcome)
      requires Plays(cfg, Now(), envs)
      modifies this
      ensures (Now(), o) == Play(cfg, old(Now()), envs)
    {
      o := Repeat;
      var i := 0;
      assert envs[0..] == envs;
      while i < |envs|
        invariant i <= |envs| && o == Repeat && Plays(cfg, Now(), envs[i..])
        invariant Play(cfg, old(Now()), envs) == Play(cfg, Now(), envs[i..])
      {
        assert envs[i..][0] == envs[i] && envs[i..][1..] == envs[i + 1..];
        o := Turn(envs[i]);
        if o != Repeat {
          return;
        }
        i := i + 1;
      }
    }

    /** What run_child reports once the loop has been left. */
    method Conclude(o: Outcome) returns (r: Report)
      requires Valid() && o != Repeat
      modifies this
      ensures Now() == old(Now()).(open := {}, closed := multiset(ALL))
      ensures r == if o == IoError then Broken else if expired != [] then TimedOut else Exited
    {
      Finish();
      r := if o == IoError then Broken else if timedOut then TimedOut else Exited;
    }
  }

  /** run_child from the fork on: whatever the answers, what it leaves behind and what it reports. */
  method RunChild(cfg: Config, now: int, envs: seq<Env>)
    returns (r: Report, out: seq<byte>, err: seq<byte>, run: ChildRun)
    requires Plays(cfg, Start(cfg, now), envs)
    ensures r == Unfinished <==> Play(cfg, Start(cfg, now), envs).1 == Repeat
    ensures r == Broken <==> Play(cfg, Start(cfg, now), envs).1 == IoError
    ensures r == TimedOut <==>
      Play(cfg, Start(cfg, now), envs).1 == Leave && Play(cfg, Start(cfg, now), envs).0.expired != []
    ensures r == Exited <==>
      Play(cfg, Start(cfg, now), envs).1 == Leave && Play(cfg, Start(cfg, now), envs).0.expired == []
    ensures out == Play(cfg, Start(cfg, now), envs).0.out && err == Play(cfg, Start(cfg, now), envs).0.err
    ensures r != Unfinished ==> run.open == {} && run.closed == multiset(ALL)
  {
    StartKeeps(cfg, now);
    PlayKeeps(cfg, Start(cfg, now), envs, now + cfg.timeout);
    run := new ChildRun(cfg, now);
    var o := run.Loop(envs);
    out, err, r := run.out, run.err, Unfinished;
    if o != Repeat {
      r := run.Conclude(o);
    }
  }
}
