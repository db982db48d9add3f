/** The sealed command family. Exactly three variants exist, so every `match`
    over a `Command` is checked for exhaustiveness by Dafny, just as a switch over
    the sealed interface is by the Java compiler. Each command carries its
    arguments; the registry it acts on is passed to `Execute`. */
module Commands {
  import opened Wrappers
  import opened Tasks
  import opened TaskRegistry

  /** The one domain error: an update named a task the registry does not hold. */
  datatype TaskNotFound = TaskNotFound(name: string)

  datatype Command =
    | AddTask(task: Task)
    | RemoveTask(name: string)
    | UpdateTask(name: string, priority: Priority)

  /** The one registry name a command reads or writes. */
  function Target(cmd: Command): string {
    match cmd
    case AddTask(t) => t.name
    case RemoveTask(n) => n
    case UpdateTask(n, _) => n
  }

  /** Reference semantics for a single name: what a command does to the entry
      stored under its target, given the entry found there. An update of a
      missing entry leaves it missing. */
  function Effect(cmd: Command, entry: Option<Task>): Option<Task> {
    match cmd
    case AddTask(t) => Some(t)
    case RemoveTask(_) => None
    case UpdateTask(n, p) => if entry.Some? then Some(Task(n, p)) else None
  }

  /** The single action of a command. Add and Remove always succeed; Update
      fails with `TaskNotFound` when the name is absent, and otherwise files a
      new task with the same name and the new priority. A failure returns no
      registry, so a failed update cannot have changed anything. */
  function Execute(cmd: Command, reg: Registry): (r: Result<Registry, TaskNotFound>)
    ensures r.Failure? <==> cmd.UpdateTask? && cmd.name !in reg
    ensures r.Failure? ==> r.error == TaskNotFound(Target(cmd))
    ensures r.Success? ==> Get(r.value, Target(cmd)) == Effect(cmd, Get(reg, Target(cmd)))
    ensures r.Success? ==> forall n :: n != Target(cmd) ==> Get(r.value, n) == Get(reg, n)
    ensures r.Success? && WellKeyed(reg) ==> WellKeyed(r.value)
  {
    match cmd
    case AddTask(t) => Success(Add(reg, t))
    case RemoveTask(n) => Success(Remove(reg, n))
    case UpdateTask(n, p) =>
      match Get(reg, n)
      case None => Failure(TaskNotFound(n))
      case Some(_) => Success(Add(reg, Task(n, p)))
  }
}
