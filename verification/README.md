# Task registry driven by sealed commands — a Dafny model

The system is an in-memory task registry. A `Task` is a name plus a
`Priority` (`LOW`, `MEDIUM`, `HIGH`). The registry maps each task name to the
current task of that name. Its `add` and `remove` change it. A sealed family of
exactly three commands, `AddTaskCommand`, `RemoveTaskCommand` and
`UpdateTaskCommand`, changes it through those two, and callers may also call
them directly. `TaskManager.run` dispatches a command to its single
action, `execute()`. Add is an upsert and remove is silent when the name is
missing. Update is partial: it throws `TaskNotFoundException` when the name is
absent, and then changes nothing.

The model is functional:

- `Tasks`: `Priority` and `Task` as immutable datatypes.
- `TaskRegistry`: the registry as `map<string, Task>`, with `Add`, `Remove` and the `Option`-returning `Get`.
- `Commands`: `Command = AddTask | RemoveTask | UpdateTask`. `Execute` returns a `Result` whose failure arm is the `TaskNotFound(name)` error. `Effect` is a reference semantics of one command on the single entry it targets.
- `TaskManager`: `Run` dispatches by an exhaustive `match`, so Dafny checks that every variant is handled. `RunAll` is the fold a caller performs by running commands in turn on one registry. It stops at the first error and reports the registry the earlier commands left. `RunEach` is the same run written as a loop.
- `CommandProperties` and `ManagerProperties`: the behaviour the two test classes assert, stated for all inputs. It also includes the per-name `History` reference semantics that a finished run follows.

The Java bodies of `TaskRegistry`, `Task`, `Priority`, `AddTaskCommand`,
`RemoveTaskCommand`, `UpdateTaskCommand` and `TaskManager` are not reproduced
here. Their behaviour is taken from the sealed interface's documentation and from
the assertions of `CommandTest` and `TaskManagerTest`, and the rows below cite
those files.

## Model

| member | source | states |
|---|---|---|
| TaskRegistry.Empty | src/test/java/edu/touro/las/mcon364/taskmanager/CommandTest.java:18-21 | A new registry holds no task: every lookup is absent and its size is zero. |
| TaskRegistry.Get | src/test/java/edu/touro/las/mcon364/taskmanager/CommandTest.java:31-33 | The lookup yields the stored task exactly when the name is present, and `None` otherwise. It is never a sentinel value. |
| TaskRegistry.Add | src/test/java/edu/touro/las/mcon364/taskmanager/CommandTest.java:38-49 | After an add, a lookup of the task's name returns that task. Every other name is unaffected. The size grows by one only if the name was new. Entries stay filed under their own names. |
| TaskRegistry.Remove | src/test/java/edu/touro/las/mcon364/taskmanager/CommandTest.java:51-69 | After a remove, the name is absent and every other name is unaffected. The size shrinks by one only if the name was present. |
| Commands.Execute | src/main/java/edu/touro/las/mcon364/taskmanager/Command.java:3-16 | A command fails exactly when it is an update of an absent name, and the error names that name. On success, the target entry becomes what `Effect` prescribes and every other entry is unchanged. |
| TaskManager.Run | src/main/java/edu/touro/las/mcon364/taskmanager/Command.java:12-16 | The dispatcher covers all three variants. Running a command is executing it, with nothing caught or translated. Only an update of a missing name fails. |
| TaskManager.RunAll | src/test/java/edu/touro/las/mcon364/taskmanager/TaskManagerTest.java:61-73 | A halted run reports a not-found name that is really absent from the registry it reports. Running no commands changes nothing. The name-keying invariant survives every run. |
| TaskManager.RunAllAppend | src/test/java/edu/touro/las/mcon364/taskmanager/TaskManagerTest.java:63-67 | Running `a + b` equals running `a` and then, if `a` finished, running `b` from its result. There is no reordering, batching or deduplication. |
| TaskManager.RunEach | src/test/java/edu/touro/las/mcon364/taskmanager/TaskManagerTest.java:63-73 | Calling the dispatcher once per command in a loop on one registry gives exactly the fold `RunAll`, including where it halts. |
| CommandProperties.AddThenGet | src/test/java/edu/touro/las/mcon364/taskmanager/CommandTest.java:25-34 | Adding a task never fails, and a lookup of its name then returns a task equal to it. |
| CommandProperties.AddIsUpsert | src/test/java/edu/touro/las/mcon364/taskmanager/CommandTest.java:38-49 | Two adds under one name leave the same registry as the second add alone, so the later priority is visible. |
| CommandProperties.RemovePresent | src/test/java/edu/touro/las/mcon364/taskmanager/CommandTest.java:53-60 | Removing a present name succeeds, makes it absent and shrinks the registry by one. |
| CommandProperties.RemoveAbsentIsNoOp | src/test/java/edu/touro/las/mcon364/taskmanager/CommandTest.java:64-69 | Removing an absent name does not fail and returns the registry unchanged. |
| CommandProperties.RemoveUndoesAdd | src/main/java/edu/touro/las/mcon364/taskmanager/Command.java:9-10 | Removing a just-added task gives the same registry as removing that name without the add. |
| CommandProperties.UpdateChangesOnlyPriority | src/test/java/edu/touro/las/mcon364/taskmanager/CommandTest.java:73-95 | On a present name, an update succeeds and the stored task keeps its name and gets the new priority. In a well-keyed registry, the result is the old registry with only that task's priority replaced. |
| CommandProperties.UpdateIsAddOfNewPriority | src/main/java/edu/touro/las/mcon364/taskmanager/Command.java:11 | On a present name, updating to `p` has the same result as adding `Task(name, p)`. |
| CommandProperties.UpdateMissingFails | src/test/java/edu/touro/las/mcon364/taskmanager/CommandTest.java:99-108 | On an absent name, an update fails with the not-found error for that name. A caller running it halts with its registry unchanged, so the name stays absent. |
| CommandProperties.ExecuteIdempotent | src/main/java/edu/touro/las/mcon364/taskmanager/Command.java:9-11 | Running a succeeded command a second time changes nothing further. |
| CommandProperties.DistinctTargetsCommute | src/main/java/edu/touro/las/mcon364/taskmanager/Command.java:9-11 | Two successful commands on different names can run in either order with the same result. |
| ManagerProperties.RunAllFollowsHistory | src/test/java/edu/touro/las/mcon364/taskmanager/TaskManagerTest.java:63-73 | After a finished run, each name holds what folding only that name's commands over its initial entry gives. |
| ManagerProperties.LastAddWins | src/test/java/edu/touro/las/mcon364/taskmanager/CommandTest.java:38-49 | When the last command on a name is an add of `t`, a finished run ends with `t` under that name. |
| ManagerProperties.HaltsExactlyWhenBlocked | src/test/java/edu/touro/las/mcon364/taskmanager/CommandTest.java:99-108 | A run halts if and only if some command is an update of a name missing from the registry its predecessors produced. The halt then carries that name and that registry. |
| ManagerProperties.NoUpdateNeverHalts | src/test/java/edu/touro/las/mcon364/taskmanager/CommandTest.java:64-69 | A run made only of adds and removes always finishes. |
| ManagerProperties.ReachableRegistriesWellKeyed | src/test/java/edu/touro/las/mcon364/taskmanager/TaskManagerTest.java:19-23 | Every registry reachable from a fresh, empty one by running commands files each task under its own name. This holds whether the run finished or halted. Direct calls of `Add` and `Remove` keep the same invariant, by their own contracts. |
| ManagerProperties.RunAddMakesPresent | src/test/java/edu/touro/las/mcon364/taskmanager/TaskManagerTest.java:27-34 | Running an add makes the task's name present. |
| ManagerProperties.RunRemoveMakesAbsent | src/test/java/edu/touro/las/mcon364/taskmanager/TaskManagerTest.java:38-45 | Running a remove of a present name makes it absent. |
| ManagerProperties.RunUpdateSetsPriority | src/test/java/edu/touro/las/mcon364/taskmanager/TaskManagerTest.java:49-59 | Running an update of a present name leaves it present with the new priority. |
| ManagerProperties.FourCommandScenario | src/test/java/edu/touro/las/mcon364/taskmanager/TaskManagerTest.java:63-73 | From empty, add "Task 1" HIGH, add "Task 2" LOW, update "Task 2" to MEDIUM, remove "Task 1". The result holds only "Task 2" at MEDIUM. |

## Left out

- The exception class hierarchy is not modelled. Its `RuntimeException` base, the constructor taking a `cause` and the message text are all dropped. The error is the value `TaskNotFound(name)`.
- Object identity and aliasing are not modelled. In the source, the manager and each command hold the same registry object (TaskManagerTest.java:77-85). Here one registry value is passed from each call to the next, so the registry a caller inspects is, by construction, the one the run changed. `RunAddMakesPresent` and `RunEach` state the observable consequence.
- The command's reference to its registry is not stored in the command. It is an argument to `Execute`, so a command is just its literal arguments.
- No ordering over `Priority` (LOW < MEDIUM < HIGH) is modelled, because no modelled behaviour depends on it.
- JUnit's set-up and assertion machinery is not modelled. Each test becomes a lemma over all inputs instead.
- Concurrency and persistence are not modelled; the source has neither.
