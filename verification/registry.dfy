/** The task registry: a store mapping each task name to the current task of
    that name. Its primitives are permissive: `Add` overwrites and `Remove` of
    an absent name does nothing. The "task must exist" policy lives in the
    command layer. */
module TaskRegistry {
  import opened Wrappers
  import opened Tasks

  /** At most one task per name: the registry is a finite map keyed by name. */
  type Registry = map<string, Task>

  /** A freshly created registry holds no tasks. */
  function Empty(): (r: Registry)
    ensures forall n :: Get(r, n) == None
    ensures |r| == 0
  {
    map[]
  }

  /** Every stored task is filed under its own name. */
  ghost predicate WellKeyed(reg: Registry) {
    forall n :: n in reg ==> reg[n].name == n
  }

  /** Lookup: the current task of that name, or `None`. A pure read. */
  function Get(reg: Registry, name: string): (r: Option<Task>)
    ensures r.Some? <==> name in reg
    ensures r.Some? ==> r.value == reg[name]
  {
    if name in reg then Some(reg[name]) else None
  }

  /** Inserts `task` under its name, replacing any task already filed there. */
  function Add(reg: Registry, task: Task): (r: Registry)
    ensures Get(r, task.name) == Some(task)
    ensures forall n :: n != task.name ==> Get(r, n) == Get(reg, n)
    ensures |r| == if task.name in reg then |reg| else |reg| + 1
    ensures WellKeyed(reg) ==> WellKeyed(r)
  {
    reg[task.name := task]
  }

  /** Deletes the entry for `name` if there is one; otherwise a no-op. */
  function Remove(reg: Registry, name: string): (r: Registry)
    ensures Get(r, name) == None
    ensures forall n :: n != name ==> Get(r, n) == Get(reg, n)
    ensures |r| == if name in reg then |reg| - 1 else |reg|
    ensures WellKeyed(reg) ==> WellKeyed(r)
  {
    reg - {name}
  }

  /** A registry is determined by what `Get` answers for every name. */
  lemma SameLookupsSameRegistry(a: Registry, b: Registry)
    requires forall n :: Get(a, n) == Get(b, n)
    ensures a == b
  {
    assert a.Keys == b.Keys by {
      forall n ensures n in a <==> n in b {
        assert Get(a, n).Some? == Get(b, n).Some?;
      }
    }
    forall n | n in a ensures a[n] == b[n] {
      assert Get(a, n) == Get(b, n);
    }
  }
}
