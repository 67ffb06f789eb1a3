/** Task documents: upsert, removal and lookup (`add_task`, `remove_task`, `get_task`). */
module Tasks {
  import opened Wrappers
  import opened DataStore

  /**
   Upserts the task definition. The `running_jobs` counter is set to 0 only
   when the task is inserted; an existing task keeps its counter.
   */
  function AddTask(st: Store, def: TaskDef): (r: Reply<()>)
    ensures OnlyTasksChanged(st, r.store)
    ensures r.store.tasks.Keys == st.tasks.Keys + {def.id}
    ensures r.store.tasks[def.id].def == def
    ensures def.id in st.tasks ==> r.store.tasks[def.id].runningJobs == st.tasks[def.id].runningJobs
    ensures def.id !in st.tasks ==> r.store.tasks[def.id].runningJobs == 0
    ensures forall t :: t in st.tasks && t != def.id ==> r.store.tasks[t] == st.tasks[t]
    ensures def.id in st.tasks ==> r.store.events == st.events + [TaskUpdated(def.id)]
    ensures def.id !in st.tasks ==> r.store.events == st.events + [TaskAdded(def.id)]
  {
    if def.id in st.tasks then
      var record := TaskRecord(def, st.tasks[def.id].runningJobs);
      Reply(st.(tasks := st.tasks[def.id := record], events := st.events + [TaskUpdated(def.id)]), ())
    else
      Reply(st.(tasks := st.tasks[def.id := TaskRecord(def, 0)], events := st.events + [TaskAdded(def.id)]), ())
  }

  /** Deletes the task, or raises a lookup error when there is no such task. */
  function RemoveTask(st: Store, id: TaskId): (r: Reply<Result<(), StoreError>>)
    ensures r.value.Ok? <==> id in st.tasks
    ensures r.value.Err? ==> r.value.error == TaskLookupError(id) && r.store == st
    ensures r.value.Ok? ==> r.store.tasks == st.tasks - {id}
    ensures r.value.Ok? ==> r.store.events == st.events + [TaskRemoved(id)]
    ensures OnlyTasksChanged(st, r.store)
  {
    if id !in st.tasks then Reply(st, Err(TaskLookupError(id)))
    else Reply(st.(tasks := st.tasks - {id}, events := st.events + [TaskRemoved(id)]), Ok(()))
  }

  /** Returns the stored definition, or raises a lookup error when there is no such task. */
  function GetTask(st: Store, id: TaskId): (r: Result<TaskDef, StoreError>)
    ensures r.Ok? <==> id in st.tasks
    ensures r.Ok? ==> r.value == st.tasks[id].def
    ensures r.Err? ==> r.error == TaskLookupError(id)
  {
    if id in st.tasks then Ok(st.tasks[id].def) else Err(TaskLookupError(id))
  }

  /** Reading a task back after adding it yields the added definition. */
  lemma AddThenGetTask(st: Store, def: TaskDef)
    ensures GetTask(AddTask(st, def).store, def.id) == Ok(def)
  {
  }

  /** After a successful removal, the task can neither be read nor removed again. */
  lemma RemoveThenGetTask(st: Store, id: TaskId)
    requires RemoveTask(st, id).value.Ok?
    ensures GetTask(RemoveTask(st, id).store, id) == Err(TaskLookupError(id))
    ensures RemoveTask(RemoveTask(st, id).store, id).value == Err(TaskLookupError(id))
  {
  }

  /** Task upsert and removal keep the store invariant. */
  lemma TaskOperationsKeepValid(st: Store, def: TaskDef, id: TaskId)
    requires Valid(st)
    ensures Valid(AddTask(st, def).store)
    ensures Valid(RemoveTask(st, id).store)
  {
  }
}
