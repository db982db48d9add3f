/** The values stored by the registry. */
module Tasks {

  /** The urgency scale a task carries. No ordering between the values is modelled. */
  datatype Priority = Low | Medium | High

  /** An immutable task record. Two tasks are equal exactly when their names and
      priorities are equal; the name is the task's key in a registry. */
  datatype Task = Task(name: string, priority: Priority)
}
