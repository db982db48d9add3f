/** Properties of the dispatcher and of runs of several commands, as the
    manager tests exercise them, together with a per-name reference
    semantics that a successful run is proved to follow. */
module ManagerProperties {
  import opened Wrappers
  import opened Tasks
  import opened TaskRegistry
  import opened Commands
  import opened TaskManager

  /** Reference semantics of one name: fold each command that targets `name`
      over the entry, ignoring every command aimed at another name. */
  function History(entry: Option<Task>, name: string, cmds: seq<Command>): Option<Task>
    decreases |cmds|
  {
    if |cmds| == 0 then entry
    else
      var next := if Target(cmds[0]) == name then Effect(cmds[0], entry) else entry;
      History(next, name, cmds[1..])
  }

  /** A run that finishes leaves under every name exactly what that name's own
      history of commands dictates: commands on other names do not interfere. */
  lemma {:induction false} RunAllFollowsHistory(reg: Registry, cmds: seq<Command>, name: string)
    requires RunAll(reg, cmds).Success?
    ensures Get(RunAll(reg, cmds).value, name) == History(Get(reg, name), name, cmds)
    decreases |cmds|
  {
    if |cmds| > 0 {
      var next := Run(reg, cmds[0]).value;
      assert Get(next, name) ==
        if Target(cmds[0]) == name then Effect(cmds[0], Get(reg, name)) else Get(reg, name);
      RunAllFollowsHistory(next, cmds[1..], name);
    }
  }

  /** Commands that all target other names leave a name's history unchanged. */
  lemma {:induction false} HistoryOfOtherNames(entry: Option<Task>, name: string, cmds: seq<Command>)
    requires forall i :: 0 <= i < |cmds| ==> Target(cmds[i]) != name
    ensures History(entry, name, cmds) == entry
    decreases |cmds|
  {
    if |cmds| > 0 {
      assert Target(cmds[0]) != name;
      HistoryOfOtherNames(entry, name, cmds[1..]);
    }
  }

  /** Last writer wins: after an add of `t`, later commands on other names do
      not disturb it, so a finished run ends with `t` filed under its name. */
  lemma LastAddWins(reg: Registry, before: seq<Command>, t: Task, after: seq<Command>)
    requires forall i :: 0 <= i < |after| ==> Target(after[i]) != t.name
    requires RunAll(reg, before + [AddTask(t)] + after).Success?
    ensures Get(RunAll(reg, before + [AddTask(t)] + after).value, t.name) == Some(t)
  {
    RunAllAppend(reg, before + [AddTask(t)], after);
    RunAllAppend(reg, before, [AddTask(t)]);
    var mid := RunAll(reg, before + [AddTask(t)]).value;
    assert Get(mid, t.name) == Some(t);
    RunAllFollowsHistory(mid, after, t.name);
    HistoryOfOtherNames(Some(t), t.name, after);
  }

  /** Command `i` of a run is an update of a name missing from the registry
      that the commands before it left. */
  ghost predicate Blocked(reg: Registry, cmds: seq<Command>, i: int)
    requires 0 <= i < |cmds|
  {
    && RunAll(reg, cmds[..i]).Success?
    && cmds[i].UpdateTask?
    && cmds[i].name !in RunAll(reg, cmds[..i]).value
  }

  /** A run halts exactly when some command finds itself blocked, and then it
      reports that command's not-found error together with the registry the
      commands before it produced. */
  lemma {:induction false} HaltsExactlyWhenBlocked(reg: Registry, cmds: seq<Command>)
    ensures RunAll(reg, cmds).Failure? ==>
      exists i :: 0 <= i < |cmds| && Blocked(reg, cmds, i)
        && RunAll(reg, cmds).error == Halted(TaskNotFound(cmds[i].name), RunAll(reg, cmds[..i]).value)
    ensures (exists i :: 0 <= i < |cmds| && Blocked(reg, cmds, i)) ==> RunAll(reg, cmds).Failure?
    decreases |cmds|
  {
    if |cmds| > 0 {
      assert cmds[..0] == [];
      match Run(reg, cmds[0])
      case Failure(e) =>
        assert Blocked(reg, cmds, 0);
      case Success(next) =>
        var rest := cmds[1..];
        HaltsExactlyWhenBlocked(next, rest);
        forall j | 1 <= j <= |cmds|
          ensures RunAll(reg, cmds[..j]) == RunAll(next, rest[..j - 1])
        {
          assert cmds[..j][0] == cmds[0];
          assert cmds[..j][1..] == rest[..j - 1];
        }
        if RunAll(reg, cmds).Failure? {
          var k :| 0 <= k < |rest| && Blocked(next, rest, k)
            && RunAll(next, rest).error == Halted(TaskNotFound(rest[k].name), RunAll(next, rest[..k]).value);
          assert RunAll(reg, cmds[..k + 1]) == RunAll(next, rest[..k]);
          assert Blocked(reg, cmds, k + 1);
        }
        if i :| 0 <= i < |cmds| && Blocked(reg, cmds, i) {
          assert i != 0;
          assert RunAll(reg, cmds[..i]) == RunAll(next, rest[..i - 1]);
          assert Blocked(next, rest, i - 1);
        }
    }
  }

  /** Adds and removes never fail, so a run without updates always finishes. */
  lemma {:induction false} NoUpdateNeverHalts(reg: Registry, cmds: seq<Command>)
    requires forall i :: 0 <= i < |cmds| ==> !cmds[i].UpdateTask?
    ensures RunAll(reg, cmds).Success?
    decreases |cmds|
  {
    if |cmds| > 0 {
      assert !cmds[0].UpdateTask?;
      NoUpdateNeverHalts(Run(reg, cmds[0]).value, cmds[1..]);
    }
  }

  /** Every registry the commands can produce from a fresh one files each
      task under its own name, whether the run finished or halted. */
  lemma ReachableRegistriesWellKeyed(cmds: seq<Command>)
    ensures WellKeyed(Final(RunAll(Empty(), cmds)))
  {
  }

  /** Running an add makes the task's name present in the registry the
      caller handed over. */
  lemma RunAddMakesPresent(reg: Registry, t: Task)
    ensures Run(reg, AddTask(t)).Success?
    ensures t.name in Run(reg, AddTask(t)).value
  {
  }

  /** Running a remove of a present name makes it absent. */
  lemma RunRemoveMakesAbsent(reg: Registry, name: string)
    requires name in reg
    ensures Run(reg, RemoveTask(name)).Success?
    ensures name !in Run(reg, RemoveTask(name)).value
  {
  }

  /** Running an update of a present name leaves it present with the new priority. */
  lemma RunUpdateSetsPriority(reg: Registry, name: string, p: Priority)
    requires name in reg
    ensures Run(reg, UpdateTask(name, p)).Success?
    ensures Get(Run(reg, UpdateTask(name, p)).value, name) == Some(Task(name, p))
  {
  }

  /** From an empty registry: add "Task 1" (high), add "Task 2" (low), update
      "Task 2" to medium, remove "Task 1". Only "Task 2" remains, at medium. */
  lemma FourCommandScenario()
    ensures RunAll(Empty(), [AddTask(Task("Task 1", High)), AddTask(Task("Task 2", Low)),
                           UpdateTask("Task 2", Medium), RemoveTask("Task 1")])
         == Success(map["Task 2" := Task("Task 2", Medium)])
  {
    var cmds := [AddTask(Task("Task 1", High)), AddTask(Task("Task 2", Low)),
                 UpdateTask("Task 2", Medium), RemoveTask("Task 1")];
    var r1 := Add(Empty(), Task("Task 1", High));
    var r2 := Add(r1, Task("Task 2", Low));
    var r3 := Add(r2, Task("Task 2", Medium));
    var r4 := Remove(r3, "Task 1");
    assert RunAll(r4, cmds[4..]) == Success(r4);
    assert RunAll(r3, cmds[3..]) == RunAll(r4, cmds[4..]);
    assert RunAll(r2, cmds[2..]) == RunAll(r3, cmds[3..]);
    assert RunAll(r1, cmds[1..]) == RunAll(r2, cmds[2..]);
    assert RunAll(Empty(), cmds) == RunAll(r1, cmds[1..]);
    SameLookupsSameRegistry(r4, map["Task 2" := Task("Task 2", Medium)]);
  }
}
