/** How `main` in vexec.py turns the outcome of one invocation into the
    process exit status: 2 when the VM is not found, 3 when the exit code
    is unknown or the wait timed out, the guest's exit code masked to one
    byte when there is one, and 1 for any exception on the way. */
module ExitStatus {
  import opened Wrappers
  import opened Arith
  import opened Inventory
  import opened Launcher
  import opened Poller

  /** Two to the power `n`. */
  function Pow2(n: nat): (p: nat)
    ensures p >= 1
  {
    if n == 0 then 1 else 2 * Pow2(n - 1)
  }

  /** Python's `a & b` for a non-negative mask `b`: Python integers behave
      as infinite two's complement, so bit 0 of `a` is `a % 2` and the
      remaining bits are those of the floor quotient `a / 2`, also for a
      negative `a`. */
  function BitAnd(a: int, b: nat): (r: nat)
    decreases b
  {
    if b == 0 then 0
    else 2 * BitAnd(a / 2, b / 2) + (if a % 2 == 1 && b % 2 == 1 then 1 else 0)
  }

  /** One step of the mask recursion for a mask of ones, `2p - 1`: the low
      bit of `a` is kept and the rest is `a / 2` masked with `p - 1`. */
  lemma BitAndOnesStep(a: int, p: nat)
    requires p >= 1
    ensures BitAnd(a, 2 * p - 1) == 2 * BitAnd(a / 2, p - 1) + a % 2
  {
    DivModUnique(2 * p - 1, 2, p - 1, 1);
  }

  /** Masking with `2^n - 1` keeps the low `n` bits: the non-negative
      remainder modulo `2^n`, also for a negative operand. */
  lemma {:induction false} BitAndLowBits(a: int, n: nat)
    ensures BitAnd(a, Pow2(n) - 1) == a % Pow2(n)
    decreases n
  {
    if n > 0 {
      var p := Pow2(n - 1);
      assert Pow2(n) - 1 == 2 * p - 1;
      calc {
        BitAnd(a, Pow2(n) - 1);
        { BitAndOnesStep(a, p); }
        2 * BitAnd(a / 2, p - 1) + a % 2;
        { BitAndLowBits(a / 2, n - 1); }
        2 * ((a / 2) % p) + a % 2;
        { ModDouble(a, p); }
        a % (2 * p);
      }
    }
  }

  /** The byte mask `0xFF` keeps the remainder modulo 256. */
  lemma ByteMask(a: int)
    ensures BitAnd(a, 0xFF) == a % 256
  {
    assert Pow2(8) == 256;
    BitAndLowBits(a, 8);
  }

  /** `int(exit_code) & 0xFF`: the exit code reduced to the one byte a host
      process exit status can carry. */
  function MaskExitCode(code: int): (status: int)
    ensures 0 <= status <= 255
    ensures status == code % 256
    ensures 0 <= code <= 255 ==> status == code
  {
    ByteMask(code);
    assert 0 <= code <= 255 ==> code % 256 == code by {
      if 0 <= code <= 255 { DivModUnique(code, 256, 0, code); }
    }
    BitAnd(code, 0xFF)
  }

  /** How the body of `main`'s `try` ends: by `sys.exit(status)`, which
      raises `SystemExit`, or by an `Exception`. */
  datatype Termination = SysExit(status: int) | Raised

  /** The options `main` reads from its command line. */
  datatype Options = Options(
    vmName: string,
    programPath: string,
    arguments: string,
    workingDir: Option<string>,
    timeout: int,
    pollInterval: int)

  /** The collaborators `main` talks to, as fixed answers: whether the
      connection succeeds, the inventory view, the guest agent's reply to
      `StartProgramInGuest` for a given specification, its replies to the
      successive `ListProcessesInGuest` queries, and the clock reading at
      which the wait starts. */
  datatype Environment = Environment(
    connects: bool,
    view: seq<Vm>,
    startProgram: ProgramSpec -> LaunchReply,
    listProcesses: nat -> ListReply,
    clock: int)

  /** The status the body requests once the wait has returned: 3 for an
      unknown exit code, the masked code otherwise; a fault of the wait is
      an exception. */
  function WaitTermination(result: PollResult): (t: Termination)
    ensures t.Raised? <==> result.PollFault?
    ensures result == Finished(None) ==> t == SysExit(3)
    ensures result.Finished? && result.exitCode.Some? ==> t == SysExit(result.exitCode.value % 256)
    ensures t.SysExit? ==> 0 <= t.status <= 255
  {
    match result
    case PollFault => Raised
    case Finished(None) => SysExit(3)
    case Finished(Some(c)) => SysExit(MaskExitCode(c))
  }

  /** The `try` body of `main`: connect, look the VM up, launch the
      program, wait for it and request the matching exit status. */
  function MainBody(env: Environment, opts: Options): (t: Termination)
    requires opts.pollInterval > 0
  {
    if !env.connects then Raised
    else match LookupVm(env.view, opts.vmName)
      case None => SysExit(2)
      case Some(_) =>
        var spec := BuildProgramSpec(opts.programPath, opts.arguments, opts.workingDir);
        match env.startProgram(spec)
        case LaunchFault => Raised
        case Started(_) =>
          WaitTermination(Wait(env.listProcesses, env.clock, opts.timeout, opts.pollInterval).result)
  }

  /** The exit status of `main`: the handler `except Exception` turns an
      exception into 1, while `SystemExit` is not an `Exception` and passes
      through with the status the body requested. */
  function MainExitStatus(env: Environment, opts: Options): (status: int)
    requires opts.pollInterval > 0
    ensures 0 <= status <= 255
    ensures MainBody(env, opts).SysExit? ==> status == MainBody(env, opts).status
    ensures MainBody(env, opts).Raised? ==> status == 1
  {
    match MainBody(env, opts)
    case Raised => 1
    case SysExit(s) => s
  }

  /** The preconditions under which `main` reaches the wait: connected,
      the VM found and the program started. */
  predicate ReachesWait(env: Environment, opts: Options)
  {
    env.connects
    && LookupVm(env.view, opts.vmName).Some?
    && env.startProgram(BuildProgramSpec(opts.programPath, opts.arguments, opts.workingDir)).Started?
  }

  /** A connection failure or a launch failure (bad guest credentials or
      any other fault) exits with 1. */
  lemma MainLaunchFailures(env: Environment, opts: Options)
    requires opts.pollInterval > 0
    requires !env.connects
      || (LookupVm(env.view, opts.vmName).Some?
          && env.startProgram(BuildProgramSpec(opts.programPath, opts.arguments, opts.workingDir)).LaunchFault?)
    ensures MainExitStatus(env, opts) == 1
  {
  }

  /** The code the wait hands to `main`, when there is one. */
  function WaitCode(env: Environment, opts: Options): (code: Option<int>)
    requires opts.pollInterval > 0
  {
    var r := Wait(env.listProcesses, env.clock, opts.timeout, opts.pollInterval);
    if r.result.Finished? then r.result.exitCode else None
  }

  /** Exit status 2 exactly when connected and no VM in the view has the
      requested name, or when the guest's exit code is 2 modulo 256: the
      `SystemExit` of the not-found branch is not turned into 1. */
  lemma MainExitTwo(env: Environment, opts: Options)
    requires opts.pollInterval > 0
    ensures MainExitStatus(env, opts) == 2 <==>
      (env.connects && forall i :: 0 <= i < |env.view| ==> env.view[i].name != opts.vmName)
      || (ReachesWait(env, opts) && WaitCode(env, opts).Some? && WaitCode(env, opts).value % 256 == 2)
  {
  }

  /** Exit status 1 exactly when an exception was raised on the way (no
      connection, a launch fault, a fault of an in-time query) or the
      guest's exit code is 1 modulo 256. */
  lemma MainExitOne(env: Environment, opts: Options)
    requires opts.pollInterval > 0
    ensures MainExitStatus(env, opts) == 1 <==>
      !env.connects
      || (env.connects && LookupVm(env.view, opts.vmName).Some?
          && env.startProgram(BuildProgramSpec(opts.programPath, opts.arguments, opts.workingDir)).LaunchFault?)
      || (ReachesWait(env, opts)
          && Wait(env.listProcesses, env.clock, opts.timeout, opts.pollInterval).result.PollFault?)
      || (ReachesWait(env, opts) && WaitCode(env, opts).Some? && WaitCode(env, opts).value % 256 == 1)
  {
  }

  /** Once the wait is reached, the exit status depends only on the wait's
      result: 1 if it raised, 3 if the exit code is unknown (process gone
      or timed out), the code modulo 256 otherwise. */
  lemma {:induction false} MainAfterWait(env: Environment, opts: Options)
    requires opts.pollInterval > 0 && ReachesWait(env, opts)
    ensures var r := Wait(env.listProcesses, env.clock, opts.timeout, opts.pollInterval);
      && (r.result.PollFault? ==> MainExitStatus(env, opts) == 1)
      && (r.result == Finished(None) ==> MainExitStatus(env, opts) == 3)
      && (r.result.Finished? && r.result.exitCode.Some? ==>
            MainExitStatus(env, opts) == r.result.exitCode.value % 256)
  {
  }

  /** A process that reports exit code `c` at the `j`-th query, made before
      the deadline after `j` queries that found it running, makes `main`
      exit with `c` modulo 256. */
  lemma MainCompleted(env: Environment, opts: Options, j: nat, c: int)
    requires opts.pollInterval > 0 && ReachesWait(env, opts)
    requires forall i :: 0 <= i < j ==> StillRunning(env.listProcesses(i))
    requires env.listProcesses(j).Listed? && |env.listProcesses(j).exitCodes| > 0
    requires env.listProcesses(j).exitCodes[0] == Some(c)
    requires j * opts.pollInterval <= opts.timeout
    ensures MainExitStatus(env, opts) == c % 256
  {
    PollFirstDecisive(env.listProcesses, 0, env.clock, env.clock + opts.timeout, opts.pollInterval, j);
  }

  /** A process the first query no longer finds makes `main` exit with 3,
      whatever time budget is left. */
  lemma MainVanished(env: Environment, opts: Options)
    requires opts.pollInterval > 0 && ReachesWait(env, opts)
    requires env.listProcesses(0) == Listed([])
    ensures MainExitStatus(env, opts) == 3
  {
    WaitVanished(env.listProcesses, env.clock, opts.timeout, opts.pollInterval);
  }

  /** A process found running at every query before the deadline makes
      `main` exit with 3 unless the grace query finds its exit code, in
      which case that code modulo 256 is the status; a fault of the grace
      query also gives 3. */
  lemma MainTimedOut(env: Environment, opts: Options)
    requires opts.pollInterval > 0 && ReachesWait(env, opts)
    requires forall i :: 0 <= i < LoopTicks(env.clock, env.clock + opts.timeout, opts.pollInterval) ==>
      StillRunning(env.listProcesses(i))
    ensures var grace := env.listProcesses(LoopTicks(env.clock, env.clock + opts.timeout, opts.pollInterval));
      MainExitStatus(env, opts) == if GraceValue(grace).Some? then GraceValue(grace).value % 256 else 3
  {
    PollNeverFinishes(env.listProcesses, 0, env.clock, env.clock + opts.timeout, opts.pollInterval);
  }

  /** With a 30 tick timeout and a 1 tick interval, a process that reports
      exit code 0 at the fifth query is seen at clock `start + 4` after five
      queries, and `main` exits with 0. */
  lemma ScenarioExitAtFifthPoll(env: Environment, opts: Options)
    requires ReachesWait(env, opts) && opts.timeout == 30 && opts.pollInterval == 1
    requires forall i :: 0 <= i < 4 ==> env.listProcesses(i) == Listed([None])
    requires env.listProcesses(4) == Listed([Some(0)])
    ensures Wait(env.listProcesses, env.clock, 30, 1) == Run(Finished(Some(0)), 5, env.clock + 4)
    ensures MainExitStatus(env, opts) == 0
  {
    PollFirstDecisive(env.listProcesses, 0, env.clock, env.clock + 30, 1, 4);
  }

  /** With a 5 tick timeout and a 2 tick interval, a process that never
      finishes is queried at `start`, `start + 2` and `start + 4`, then once
      more by the grace query at `start + 6`, and `main` exits with 3. */
  lemma ScenarioNeverFinishes(env: Environment, opts: Options)
    requires ReachesWait(env, opts) && opts.timeout == 5 && opts.pollInterval == 2
    requires forall i :: env.listProcesses(i) == Listed([None])
    ensures Wait(env.listProcesses, env.clock, 5, 2) == Run(Finished(None), 4, env.clock + 6)
    ensures MainExitStatus(env, opts) == 3
  {
    assert LoopTicks(env.clock, env.clock + 5, 2) == 3;
    PollNeverFinishes(env.listProcesses, 0, env.clock, env.clock + 5, 2);
  }
}
