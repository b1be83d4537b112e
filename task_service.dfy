/** src/services/task.ts: the task store and its per-project queries. */
module TaskService {
  import opened Results
  import opened Documents
  import opened Entities
  import Arrays

  /** The values `new Task(values)` is given; a status that is not given
      takes the schema default 'To-do'. */
  datatype TaskValues = TaskValues(
    project: Id,
    member: Id,
    assignedBy: Id,
    description: string,
    urgent: bool,
    status: Option<string>)

  /** The fields findByIdAndUpdate may overwrite. */
  datatype TaskChanges = TaskChanges(
    description: Option<string>,
    status: Option<string>,
    urgent: Option<bool>)

  function NewTask(values: TaskValues): Task
  {
    Task(values.project, values.member, values.assignedBy, values.description,
         Overwrite(TODO, values.status), values.urgent)
  }

  function ApplyChanges(t: Task, changes: TaskChanges): Task
  {
    t.(description := Overwrite(t.description, changes.description),
       status := Overwrite(t.status, changes.status),
       urgent := Overwrite(t.urgent, changes.urgent))
  }

  /** The query { project: projectId }. */
  function InProject(projectId: Id): Doc<Task> -> bool
  {
    (d: Doc<Task>) => d.val.project == projectId
  }

  /** The test task.member.equals(memberId). */
  function AssignedTo(memberId: Id): Doc<Task> -> bool
  {
    (d: Doc<Task>) => d.val.member == memberId
  }

  /** getProjectTasks: the tasks of the project, in natural order. */
  function GetProjectTasks(tasks: Collection<Task>, projectId: Id): (r: seq<Doc<Task>>)
    ensures Arrays.IsSubsequence(r, tasks)
    ensures forall i :: 0 <= i < |r| ==> r[i] in tasks && r[i].val.project == projectId
    ensures forall i :: 0 <= i < |tasks| && tasks[i].val.project == projectId ==> tasks[i] in r
    ensures forall i :: 0 <= i < |tasks| ==>
              multiset(r)[tasks[i]] == if tasks[i].val.project == projectId then multiset(tasks)[tasks[i]] else 0
  {
    Arrays.FilterSpec(tasks, InProject(projectId));
    Arrays.Filter(tasks, InProject(projectId))
  }

  /** getTasksPerMember: of the project's tasks, those assigned to the member,
      in the same order. */
  function GetTasksPerMember(tasks: Collection<Task>, memberId: Id, projectId: Id): (r: seq<Doc<Task>>)
    ensures Arrays.IsSubsequence(r, GetProjectTasks(tasks, projectId))
    ensures forall i :: 0 <= i < |r| ==>
              r[i] in tasks && r[i].val.project == projectId && r[i].val.member == memberId
    ensures forall i :: 0 <= i < |tasks| ==>
              (tasks[i].val.project == projectId && tasks[i].val.member == memberId ==> tasks[i] in r)
    ensures forall i :: 0 <= i < |tasks| ==>
              multiset(r)[tasks[i]] ==
                if tasks[i].val.project == projectId && tasks[i].val.member == memberId
                then multiset(tasks)[tasks[i]] else 0
  {
    var projectTasks := GetProjectTasks(tasks, projectId);
    Arrays.FilterSpec(projectTasks, AssignedTo(memberId));
    var r := Arrays.Filter(projectTasks, AssignedTo(memberId));
    forall i | 0 <= i < |tasks|
      ensures multiset(r)[tasks[i]] ==
                if tasks[i].val.project == projectId && tasks[i].val.member == memberId
                then multiset(tasks)[tasks[i]] else 0
    {
      if tasks[i].val.project == projectId {
        var j :| 0 <= j < |projectTasks| && projectTasks[j] == tasks[i];
      } else {
        assert tasks[i] !in r;
      }
    }
    r
  }

  /** createTask: the new task is saved under a fresh id. */
  function CreateTask(tasks: Collection<Task>, id: Id, values: TaskValues): Collection<Task>
  {
    Insert(tasks, id, NewTask(values))
  }

  /** updateTask: findByIdAndUpdate, then populateTask on its result, which
      fails on a null task. */
  function UpdateTask(tasks: Collection<Task>, id: Id, changes: TaskChanges): Result<Collection<Task>>
  {
    match FindById(tasks, id)
    case None => Failure(TaskNotFound)
    case Some(d) => Success(Replace(tasks, id, ApplyChanges(d.val, changes)))
  }

  /** deleteTask: deleteOne({ _id: id }). */
  function DeleteTask(tasks: Collection<Task>, id: Id): Collection<Task>
  {
    Remove(tasks, id)
  }

  /** createTask adds one task carrying the given values, last in its
      project's list, and every other lookup is as before. */
  lemma CreateTaskOutcome(tasks: Collection<Task>, id: Id, values: TaskValues, k: Id, projectId: Id)
    requires UniqueIds(tasks) && FindById(tasks, id).None?
    ensures UniqueIds(CreateTask(tasks, id, values))
    ensures FindById(CreateTask(tasks, id, values), k) ==
              if k == id then Some(Doc(id, NewTask(values))) else FindById(tasks, k)
    ensures GetProjectTasks(CreateTask(tasks, id, values), projectId) ==
              GetProjectTasks(tasks, projectId) +
              (if values.project == projectId then [Doc(id, NewTask(values))] else [])
  {
    InsertFind(tasks, id, NewTask(values), k);
    Arrays.FilterAppend(tasks, Doc(id, NewTask(values)), InProject(projectId));
  }

  /** updateTask fails exactly when the id does not resolve; otherwise the
      task takes the given fields, keeps its project, member and assigner,
      and every other task is as before. */
  lemma UpdateTaskOutcome(tasks: Collection<Task>, id: Id, changes: TaskChanges, k: Id)
    requires UniqueIds(tasks)
    ensures UpdateTask(tasks, id, changes).Failure? <==> FindById(tasks, id).None?
    ensures UpdateTask(tasks, id, changes).Failure? ==>
              UpdateTask(tasks, id, changes).error == TaskNotFound
    ensures UpdateTask(tasks, id, changes).Success? ==>
              var t := FindById(tasks, id).value.val;
              var t' := ApplyChanges(t, changes);
              && UniqueIds(UpdateTask(tasks, id, changes).value)
              && FindById(UpdateTask(tasks, id, changes).value, k) ==
                   (if k == id then Some(Doc(id, t')) else FindById(tasks, k))
              && t'.project == t.project && t'.member == t.member && t'.assignedBy == t.assignedBy
              && (changes.status.Some? ==> t'.status == changes.status.value)
              && (changes.status.None? ==> t'.status == t.status)
  {
    if FindById(tasks, id).Some? {
      ReplaceFind(tasks, id, ApplyChanges(FindById(tasks, id).value.val, changes), k);
    }
  }

  /** deleteTask removes only the task with that id; the other tasks of
      every project stay, in their order. */
  lemma DeleteTaskOutcome(tasks: Collection<Task>, id: Id, k: Id, projectId: Id)
    requires UniqueIds(tasks)
    ensures UniqueIds(DeleteTask(tasks, id))
    ensures FindById(DeleteTask(tasks, id), k) == if k == id then None else FindById(tasks, k)
    ensures forall i :: 0 <= i < |GetProjectTasks(DeleteTask(tasks, id), projectId)| ==>
              GetProjectTasks(DeleteTask(tasks, id), projectId)[i].id != id
    ensures forall d :: d in GetProjectTasks(tasks, projectId) && d.id != id ==>
              d in GetProjectTasks(DeleteTask(tasks, id), projectId)
  {
    RemoveFind(tasks, id, k);
    var after := DeleteTask(tasks, id);
    forall d | d in GetProjectTasks(tasks, projectId) && d.id != id
      ensures d in GetProjectTasks(after, projectId)
    {
      assert d in tasks;
      assert d in after;
    }
  }
}
