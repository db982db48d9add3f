/** Properties of single commands and of pairs of commands, as the command
    tests exercise them. */
module CommandProperties {
  import opened Wrappers
  import opened Tasks
  import opened TaskRegistry
  import opened Commands
  import opened TaskManager

  /** Adding a task makes a lookup of its name return that very task. */
  lemma AddThenGet(reg: Registry, t: Task)
    ensures Execute(AddTask(t), reg).Success?
    ensures Get(Execute(AddTask(t), reg).value, t.name) == Some(t)
  {
  }

  /** Add is upsert: a second add under the same name replaces the first one
      entirely, so the registry is as if only the second add had happened. */
  lemma AddIsUpsert(reg: Registry, first: Task, second: Task)
    requires first.name == second.name
    ensures Execute(AddTask(second), Execute(AddTask(first), reg).value)
         == Execute(AddTask(second), reg)
    ensures Get(Execute(AddTask(second), Execute(AddTask(first), reg).value).value, second.name)
         == Some(second)
  {
    var once := Execute(AddTask(second), reg).value;
    var twice := Execute(AddTask(second), Execute(AddTask(first), reg).value).value;
    SameLookupsSameRegistry(twice, once);
  }

  /** Removing a present task makes its name absent; other names keep their tasks. */
  lemma RemovePresent(reg: Registry, name: string)
    requires name in reg
    ensures Execute(RemoveTask(name), reg).Success?
    ensures Get(Execute(RemoveTask(name), reg).value, name) == None
    ensures |Execute(RemoveTask(name), reg).value| == |reg| - 1
  {
  }

  /** Removing an absent name succeeds and leaves the registry exactly as it was. */
  lemma RemoveAbsentIsNoOp(reg: Registry, name: string)
    requires name !in reg
    ensures Execute(RemoveTask(name), reg) == Success(reg)
  {
    SameLookupsSameRegistry(Execute(RemoveTask(name), reg).value, reg);
  }

  /** Removing a task just added is the same as removing the name from the
      original registry: the add leaves no trace. */
  lemma RemoveUndoesAdd(reg: Registry, t: Task)
    ensures Execute(RemoveTask(t.name), Execute(AddTask(t), reg).value)
         == Execute(RemoveTask(t.name), reg)
  {
    var direct := Execute(RemoveTask(t.name), reg).value;
    var viaAdd := Execute(RemoveTask(t.name), Execute(AddTask(t), reg).value).value;
    SameLookupsSameRegistry(viaAdd, direct);
  }

  /** Updating a present task changes its priority and nothing else: the
      stored task keeps its name, and in a registry whose tasks are filed
      under their own names (every reachable one) the new registry is the old
      one with just that task's priority replaced. */
  lemma UpdateChangesOnlyPriority(reg: Registry, name: string, p: Priority)
    requires name in reg
    ensures Execute(UpdateTask(name, p), reg).Success?
    ensures Get(Execute(UpdateTask(name, p), reg).value, name).value.name == name
    ensures Get(Execute(UpdateTask(name, p), reg).value, name).value.priority == p
    ensures WellKeyed(reg) ==>
      Execute(UpdateTask(name, p), reg) == Success(reg[name := reg[name].(priority := p)])
  {
    var updated := Execute(UpdateTask(name, p), reg).value;
    if WellKeyed(reg) {
      assert reg[name].name == name;
      SameLookupsSameRegistry(updated, reg[name := reg[name].(priority := p)]);
    }
  }

  /** An update of a present name does what adding the renamed task would do. */
  lemma UpdateIsAddOfNewPriority(reg: Registry, name: string, p: Priority)
    requires name in reg
    ensures Execute(UpdateTask(name, p), reg) == Execute(AddTask(Task(name, p)), reg)
  {
    SameLookupsSameRegistry(Execute(UpdateTask(name, p), reg).value,
                            Execute(AddTask(Task(name, p)), reg).value);
  }

  /** An update of an absent name fails with a not-found error naming it; a
      caller running it is left with the registry it had, so the name stays
      absent and no task materialises. */
  lemma UpdateMissingFails(reg: Registry, name: string, p: Priority)
    requires name !in reg
    ensures Execute(UpdateTask(name, p), reg) == Failure(TaskNotFound(name))
    ensures RunAll(reg, [UpdateTask(name, p)]) == Failure(Halted(TaskNotFound(name), reg))
    ensures name !in Final(RunAll(reg, [UpdateTask(name, p)]))
  {
  }

  /** Re-executing a command that succeeded changes nothing further: every
      variant is idempotent. */
  lemma {:induction false} ExecuteIdempotent(cmd: Command, reg: Registry)
    requires Execute(cmd, reg).Success?
    ensures Execute(cmd, Execute(cmd, reg).value) == Execute(cmd, reg)
  {
    var once := Execute(cmd, reg).value;
    var n := Target(cmd);
    if cmd.UpdateTask? {
      assert Get(once, n).Some?;
    }
    var twice := Execute(cmd, once).value;
    assert Get(twice, n) == Get(once, n) by {
      match cmd
      case AddTask(_) =>
      case RemoveTask(_) =>
      case UpdateTask(_, _) =>
    }
    SameLookupsSameRegistry(twice, once);
  }

  /** Commands on different names commute: neither sees the other's target,
      so the order of two successful commands on distinct names is irrelevant. */
  lemma DistinctTargetsCommute(a: Command, b: Command, reg: Registry)
    requires Target(a) != Target(b)
    requires Execute(a, reg).Success? && Execute(b, reg).Success?
    ensures Execute(b, Execute(a, reg).value).Success?
    ensures Execute(a, Execute(b, reg).value).Success?
    ensures Execute(b, Execute(a, reg).value).value == Execute(a, Execute(b, reg).value).value
  {
    var ra := Execute(a, reg).value;
    var rb := Execute(b, reg).value;
    assert Get(ra, Target(b)) == Get(reg, Target(b));
    assert Get(rb, Target(a)) == Get(reg, Target(a));
    if b.UpdateTask? {
      assert Get(ra, b.name).Some?;
    }
    if a.UpdateTask? {
      assert Get(rb, a.name).Some?;
    }
    var ab := Execute(b, ra).value;
    var ba := Execute(a, rb).value;
    forall n ensures Get(ab, n) == Get(ba, n) {
      if n == Target(a) {
        assert Get(ab, n) == Get(ra, n);
      } else if n == Target(b) {
        assert Get(ba, n) == Get(rb, n);
      }
    }
    SameLookupsSameRegistry(ab, ba);
  }
}
