/** The list of tasks on the project details page: creating a task, changing a
    task's status and deleting a task each reconcile the local list with
    the server's reply instead of reloading it. */
module ProjectDetailsPage {
  import opened Values
  import opened Lists
  import opened Strings

  /** A task as the server returns it. */
  datatype TaskItem = TaskItem(
    id: string,
    title: Option<string>,
    status: Option<string>,
    priority: Option<string>)

  /** The create form: `title` and `priority` state. */
  datatype TaskForm = TaskForm(title: string, priority: string)

  /** The list of tasks with the create form beside it. */
  datatype TaskPanel = TaskPanel(tasks: seq<TaskItem>, form: TaskForm)

  /** The body of `POST /projects/:projectId/tasks`. */
  datatype NewTask = NewTask(title: string, priority: string)

  const EmptyForm: TaskForm := TaskForm("", "medium")

  /** `createTask` up to its request: a blank title sends nothing. */
  function CreateTaskRequest(form: TaskForm): (r: Option<NewTask>)
    ensures r.None? <==> Blank(form.title)
    ensures r.Some? ==> r.value.title == form.title && r.value.priority == form.priority
  {
    TrimEmptyIffBlank(form.title);
    if Trim(form.title) == [] then None else Some(NewTask(form.title, form.priority))
  }

  /** The panel after `createTask`: unchanged when nothing was sent or the
      request failed (`reply` is `None`); otherwise the new task is put in
      front and the form is reset. */
  function CreateTask(panel: TaskPanel, reply: Option<TaskItem>): (r: TaskPanel)
    ensures Blank(panel.form.title) || reply.None? ==> r == panel
    ensures !Blank(panel.form.title) && reply.Some? ==>
      r.form == EmptyForm && |r.tasks| == |panel.tasks| + 1
      && r.tasks[0] == reply.value && r.tasks[1..] == panel.tasks
  {
    if CreateTaskRequest(panel.form).None? || reply.None? then panel
    else
      var tasks := [reply.value] + panel.tasks;
      assert tasks[1..] == panel.tasks;
      TaskPanel(tasks, EmptyForm)
  }

  /** `updateStatus`: every task with that id is replaced by the reply, the
      others stay where they are; a failed request changes nothing. */
  function UpdateStatus(tasks: seq<TaskItem>, taskId: string, reply: Option<TaskItem>): (r: seq<TaskItem>)
    ensures |r| == |tasks|
    ensures reply.None? ==> r == tasks
    ensures reply.Some? ==> forall i :: 0 <= i < |tasks| && tasks[i].id == taskId ==> r[i] == reply.value
    ensures forall i :: 0 <= i < |tasks| && tasks[i].id != taskId ==> r[i] == tasks[i]
  {
    if reply.None? then tasks
    else ReplaceWhere(tasks, (t: TaskItem) => t.id == taskId, reply.value)
  }

  /** `prev.filter(t => t.id !== taskId)` after a successful delete:
      exactly the entries with that id are gone, the rest keep their order. */
  function DeleteTask(tasks: seq<TaskItem>, taskId: string): (r: seq<TaskItem>)
    ensures Subseq(r, tasks)
    ensures forall t :: t in r <==> t in tasks && t.id != taskId
    ensures forall t: TaskItem :: t.id != taskId ==> multiset(r)[t] == multiset(tasks)[t]
  {
    FilterIsSubseq(tasks, (t: TaskItem) => t.id != taskId);
    Filter(tasks, (t: TaskItem) => t.id != taskId)
  }

  /** A task replaced by its status update can be deleted as before: the
      update and the delete of the same id commute. */
  lemma {:induction false} UpdateThenDelete(tasks: seq<TaskItem>, taskId: string, reply: TaskItem)
    requires reply.id == taskId
    ensures DeleteTask(UpdateStatus(tasks, taskId, Some(reply)), taskId) == DeleteTask(tasks, taskId)
  {
    if tasks != [] {
      UpdateThenDelete(tasks[1..], taskId, reply);
      var u := UpdateStatus(tasks, taskId, Some(reply));
      assert u[1..] == UpdateStatus(tasks[1..], taskId, Some(reply));
      assert u[0].id == taskId <==> tasks[0].id == taskId;
    }
  }
}
