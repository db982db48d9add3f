/** The dispatcher. `Run` hands one command to its action by an exhaustive
    case analysis over the three variants; the manager catches nothing, so a
    not-found error reaches the caller unchanged. A caller that runs several
    commands in turn against one registry is modelled by `RunAll` (the
    reference fold) and by `RunEach` (the loop a caller writes). */
module TaskManager {
  import opened Wrappers
  import opened Tasks
  import opened TaskRegistry
  import opened Commands

  /** How a run of several commands stops early: the error of the failing
      command and the registry as the earlier commands left it (their
      changes are not rolled back). */
  datatype Halted = Halted(error: TaskNotFound, registry: Registry)

  /** Dispatches one command. Running a command is invoking its action, and
      only the update of a missing name fails. */
  function Run(reg: Registry, cmd: Command): (r: Result<Registry, TaskNotFound>)
    ensures r == Execute(cmd, reg)
    ensures r.Failure? <==> cmd.UpdateTask? && cmd.name !in reg
  {
    match cmd
    case AddTask(_) => Execute(cmd, reg)
    case RemoveTask(_) => Execute(cmd, reg)
    case UpdateTask(_, _) => Execute(cmd, reg)
  }

  /** The registry a run leaves behind, whether it finished or halted. */
  function Final(r: Result<Registry, Halted>): Registry {
    match r
    case Success(reg) => reg
    case Failure(h) => h.registry
  }

  /** Runs the commands in order against one registry, each seeing the
      registry its predecessor left; the first failure stops the run. */
  function RunAll(reg: Registry, cmds: seq<Command>): (r: Result<Registry, Halted>)
    ensures r.Failure? ==> r.error.error.name !in r.error.registry
    ensures WellKeyed(reg) ==> WellKeyed(Final(r))
    ensures |cmds| == 0 ==> r == Success(reg)
    decreases |cmds|
  {
    if |cmds| == 0 then Success(reg)
    else
      match Run(reg, cmds[0])
      case Failure(e) => Failure(Halted(e, reg))
      case Success(next) => RunAll(next, cmds[1..])
  }

  /** Sequencing: running `a + b` is running `a` and then, if it finished,
      running `b` from where `a` left off. The manager adds no reordering,
      batching or deduplication. */
  lemma {:induction false} RunAllAppend(reg: Registry, a: seq<Command>, b: seq<Command>)
    ensures RunAll(reg, a).Success? ==> RunAll(reg, a + b) == RunAll(RunAll(reg, a).value, b)
    ensures RunAll(reg, a).Failure? ==> RunAll(reg, a + b) == RunAll(reg, a)
    decreases |a|
  {
    if |a| == 0 {
      assert a + b == b;
    } else {
      assert (a + b)[0] == a[0];
      assert (a + b)[1..] == a[1..] + b;
      match Run(reg, a[0])
      case Failure(_) =>
      case Success(next) =>
        RunAllAppend(next, a[1..], b);
    }
  }

  /** A run of one command finishes exactly as that command does. */
  lemma RunAllSingle(reg: Registry, cmd: Command)
    ensures Run(reg, cmd).Success? ==> RunAll(reg, [cmd]) == Success(Run(reg, cmd).value)
    ensures Run(reg, cmd).Failure? ==> RunAll(reg, [cmd]) == Failure(Halted(Run(reg, cmd).error, reg))
  {
  }

  /** One step of a run: if the first `i` commands finished in `current`, the
      next command either extends that finished run or halts the whole run. */
  lemma RunAllStep(reg: Registry, cmds: seq<Command>, i: nat, current: Registry)
    requires i < |cmds|
    requires RunAll(reg, cmds[..i]) == Success(current)
    ensures Run(current, cmds[i]).Success? ==>
      RunAll(reg, cmds[..i + 1]) == Success(Run(current, cmds[i]).value)
    ensures Run(current, cmds[i]).Failure? ==>
      RunAll(reg, cmds) == Failure(Halted(Run(current, cmds[i]).error, current))
  {
    assert cmds[..i + 1] == cmds[..i] + [cmds[i]];
    RunAllAppend(reg, cmds[..i], [cmds[i]]);
    RunAllSingle(current, cmds[i]);
    if Run(current, cmds[i]).Failure? {
      assert cmds[..i + 1] + cmds[i + 1..] == cmds;
      RunAllAppend(reg, cmds[..i + 1], cmds[i + 1..]);
    }
  }

  /** A caller invoking the manager once per command, in order, on one
      registry; an error propagates out of the loop at once. */
  method RunEach(reg: Registry, cmds: seq<Command>) returns (r: Result<Registry, Halted>)
    ensures r == RunAll(reg, cmds)
  {
    var current := reg;
    var i := 0;
    while i < |cmds|
      invariant 0 <= i <= |cmds|
      invariant RunAll(reg, cmds[..i]) == Success(current)
    {
      RunAllStep(reg, cmds, i, current);
      var step := Run(current, cmds[i]);
      if step.Failure? {
        return Failure(Halted(step.error, current));
      }
      current := step.value;
      i := i + 1;
    }
    assert cmds[..i] == cmds;
    return Success(current);
  }
}
