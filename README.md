# Project-manager membership and store layer, in Dafny

This project models the service layer of a project-management backend
(`src/services/project.ts`, `src/services/task.ts`, `src/services/user.ts`):
the three document stores (users, projects, tasks), the lookups on them, the
operations on a project's member list (add a member by email, promote a
member to admin, remove a member), reminders pushed into a user's inbox,
task creation, update and deletion, the per-project and per-member task
queries, and the progress percentage of a project.

Layout:

- `results.dfy` (`Results`): `Option`, `Result` and one `Error` constructor
  per failure the services raise.
- `arrays.dfy` (`Arrays`): the JavaScript array methods the services use
  (`filter`, `some`, `findIndex`) and their general properties.
- `documents.dfy` (`Documents`): a collection as its documents in natural
  order, each with its `_id`; `findOne`, `findById`, saving a new document,
  the write of `findByIdAndUpdate`/`save`, `deleteOne` and its
  `deletedCount`.
- `entities.dfy` (`Entities`): users, reminders, projects, member entries,
  tasks, and the role and status constants.
- `user_service.dfy`, `task_service.dfy`, `project_service.dfy`: each
  service call as a function of the stores it reads, returning the result or
  the new store, with lemmas stating the outcome of every call.
- `database.dfy` (`Database.Store`): a class holding the three collections
  as fields; each writing service call is a method that reads, checks and
  writes the fields step by step, keeps the unique-`_id` invariant
  `Valid()`, and whose postcondition equates its result and new state with
  the service function applied to the old state.

Decisions a reader should know:

- `populate` only replaces references by the documents they name; the model
  keeps the reference (the id), so a populated read is the plain read.
- `findOne({ email })` returns the first user in natural order with that
  email; nothing in the model makes emails unique.
- New documents get their `_id` from the caller (`CreateTask`, `CreateUser`),
  which must not already be in use.
- Update payloads are records of `Option` fields: `None` leaves a field as it
  is, as an undefined key does.
- `getProgress` on a project with no task computes `0 / 0`, which is `NaN`;
  the model returns `None` there, as the code computes, rather than 0.
- A user is meant to appear at most once in a member list, and at most one
  entry is meant to be the owner; the code does not enforce this, so the
  model states it as `ProjectService.AllWellFormed` and proves that every
  member-list operation preserves it.

## Model

| member | source | states |
|---|---|---|
| Documents.FindOne | src/services/user.ts:12-14 | `findOne` gives null exactly when no document matches; otherwise the first matching document in natural order |
| Documents.Remove | src/services/project.ts:58-60 | `deleteOne({_id})` leaves exactly the documents with another id, in their order, each as often as before |
| Documents.DeletedCount | src/services/task.ts:28-30 | the reported `deletedCount` is 1 exactly when a document had the id, else 0 |
| Documents.InsertFind | src/services/user.ts:16-20 | saving a new document under a fresh id keeps ids unique; the id now finds it and every other lookup is unchanged |
| Documents.ReplaceFind | src/services/user.ts:23-25 | an update by id keeps ids and length; the id finds the new value, other ids are unchanged; an absent id changes nothing |
| Documents.RemoveFind | src/services/user.ts:27-29 | after `deleteOne` the id finds nothing and every other id finds what it found before |
| ProjectService.HasMember | src/services/project.ts:122 | `members.some(...)` is true exactly when some entry is the user |
| ProjectService.FirstEntry | src/services/project.ts:91 | `findIndex` is -1 exactly when the user has no entry; otherwise the index of the user's first entry |
| ProjectService.MembersByRole | src/services/project.ts:67 | the filter keeps exactly the entries with that role, in order, each as often as it occurs |
| ProjectService.PullMember | src/services/project.ts:82 | `$pull` removes every entry of the user and keeps all others in order, with their multiplicities |
| ProjectService.Promote | src/services/project.ts:91-92 | fails exactly when the user has no entry; otherwise only the user's first entry changes, to role admin with its owner flag kept |
| ProjectService.PromoteIdempotent | src/services/project.ts:91-92 | promoting a user twice gives the same list as promoting once |
| ProjectService.PromotedIsAdmin | src/services/project.ts:91-95 | after promotion the admin list holds the user, and a well-formed list stays well formed |
| ProjectService.PullMemberOutcome | src/services/project.ts:82 | after `$pull` the user has no entry; pulling a non-member changes nothing; pulling from a list holding only the user's entries gives the empty list; a well-formed list stays well formed |
| ProjectService.GetProjectById | src/services/project.ts:28-36 | fails with 'Project not found' exactly when no project has the id; otherwise the project with that id |
| ProjectService.GetMembersByRole | src/services/project.ts:62-70 | fails exactly when the project lookup fails; otherwise the project's entries with that role |
| ProjectService.GetAllMembers | src/services/project.ts:72-79 | fails exactly when the project lookup fails; otherwise the stored member list of that project |
| ProjectService.CompletedCount | src/services/project.ts:145 | the number of tasks whose status is 'Completed' (the length of the filtered array); at most the task count, 0 exactly when none is completed, the task count exactly when all are |
| ProjectService.CeilDiv | src/services/project.ts:146-148 | `Math.ceil(a / b)` is the least q with a <= q * b |
| ProjectService.Progress | src/services/project.ts:139-148 | no value (NaN) exactly when there is no task; otherwise at most 100, 0 exactly when none is completed, 100 when all are, and the least percentage not below the completed fraction |
| ProjectService.GetProgress | src/services/project.ts:139-148 | no value (NaN) exactly when no task belongs to the project; otherwise at most 100, 0 exactly when none of the project's tasks is completed, and 100 when all are |
| ProjectService.ProgressMonotone | src/services/project.ts:145-148 | completing tasks in a list of the same length never lowers the progress |
| ProjectService.CompletingTaskRaisesProgress | src/services/project.ts:139-148 | setting any task's status to 'Completed' through updateTask never lowers the progress of any project |
| ProjectService.UpdateProjectOutcome | src/services/project.ts:49-56 | fails with 'Project could not be updated' exactly when the id is absent; otherwise the project takes the given fields, keeps its members, other projects are unchanged, well-formedness is kept |
| ProjectService.DeleteProjectOutcome | src/services/project.ts:58-60 | deleting a project removes it and no other |
| ProjectService.DeleteMemberOutcome | src/services/project.ts:81-86 | fails exactly when the project is absent; otherwise the returned members are the pulled list without the user, removing a non-member changes nothing, other projects are unchanged, well-formedness is kept |
| ProjectService.AddAdminOutcome | src/services/project.ts:88-96 | 'Project not found' exactly when the project is absent; a throw exactly when the user has no entry; success whenever the project exists and the user has an entry, and then the member list is the promoted one, the returned admins include the user, other projects are unchanged, well-formedness is kept |
| ProjectService.AddAdminIdempotent | src/services/project.ts:88-96 | repeating addAdmin gives the same store |
| ProjectService.AddMemberOutcome | src/services/project.ts:114-137 | 'No user found with that email' exactly when no user has the email; then 'Project not found'; 'already a member' exactly when the user has an entry; success whenever the email and project resolve and the user has no entry, and then one entry {user, member, not owner} is appended, other projects are unchanged, well-formedness is kept |
| ProjectService.AddMemberRepeated | src/services/project.ts:122-124 | after a successful addMember, adding the same email again fails with 'already a member' |
| ProjectService.SendReminderOutcome | src/services/project.ts:98-112 | fails exactly when the recipient is absent; otherwise the recipient's reminders gain exactly the new reminder at the end, its other fields and all other users are unchanged |
| TaskService.GetProjectTasks | src/services/task.ts:32-38 | exactly the tasks whose project is the given one, in natural order, each as often as stored |
| TaskService.GetTasksPerMember | src/services/task.ts:40-46 | exactly the project's tasks assigned to the member, in the order of the project's tasks, each as often as stored |
| TaskService.CreateTaskOutcome | src/services/task.ts:13-20 | the new task is found under its id with the given values and status defaulting to 'To-do', it comes last in its project's task list, other lookups are unchanged |
| TaskService.UpdateTaskOutcome | src/services/task.ts:22-26 | fails exactly when the id is absent; otherwise the task takes the given fields and keeps project, member and assigner; other tasks are unchanged |
| TaskService.DeleteTaskOutcome | src/services/task.ts:28-30 | only that task goes; every other task of every project stays |
| UserService.GetUserById | src/services/user.ts:8-10 | null exactly when no user has the id; otherwise the user with that id |
| UserService.GetUserByEmail | src/services/user.ts:12-14 | null exactly when no user has the email; otherwise the first user in natural order with it |
| UserService.GetReminders | src/services/user.ts:51-60 | fails exactly when the user is absent; otherwise one entry per stored reminder, in order |
| UserService.CreateUserOutcome | src/services/user.ts:16-21 | the new user is found under its id and by its email, with an empty reminder list; other users are unchanged |
| UserService.UpdateProfileOutcome | src/services/user.ts:23-25 | on an absent id nothing changes and null is returned; otherwise the user takes the given fields and keeps its reminders; other users are unchanged |
| UserService.DeleteUserOutcome | src/services/user.ts:27-29 | only that user goes, and the count is 1 exactly when it existed |
| UserService.ProjectsByRoleAsWritten | src/services/user.ts:31-39 | the code as written returns every project, whatever the user and role |
| UserService.UserProjectsAsWritten | src/services/user.ts:41-49 | the code as written returns every project, whatever the user |
| UserService.ProjectsByRole | src/services/user.ts:31-39 | exactly the projects in which the user has an entry with the role, in natural order, each as often as stored |
| UserService.UserProjects | src/services/user.ts:41-49 | exactly the projects in which the user has an entry, in natural order, each as often as stored |
| UserService.ProjectsByRoleIgnoresMembership | src/services/user.ts:34-36 | a project with no member entry at all is returned as written and not as intended |
| Database.Store.UpdateProject | src/services/project.ts:49-56 | result and new project store are those of `ProjectService.UpdateProject`; the re-read returns the updated project; other stores unchanged |
| Database.Store.DeleteProject | src/services/project.ts:58-60 | the new project store is the old one without the id; the count is the deleted count |
| Database.Store.DeleteMember | src/services/project.ts:81-86 | result and new project store are those of `ProjectService.DeleteMember`; returns the re-read member list |
| Database.Store.AddAdmin | src/services/project.ts:88-96 | result and new project store are those of `ProjectService.AddAdmin`; returns the re-read admins |
| Database.Store.SendReminder | src/services/project.ts:98-112 | result and new user store are those of `ProjectService.SendReminder`; returns the saved recipient |
| Database.Store.AddMember | src/services/project.ts:114-137 | result and new project store are those of `ProjectService.AddMember`; other stores unchanged |
| Database.Store.CreateTask | src/services/task.ts:13-20 | the new task store is the old one plus the new task; returns the re-read task with the given values |
| Database.Store.UpdateTask | src/services/task.ts:22-26 | result and new task store are those of `TaskService.UpdateTask`; returns the re-read task |
| Database.Store.DeleteTask | src/services/task.ts:28-30 | the new task store is the old one without the id; the count is the deleted count |
| Database.Store.CreateUser | src/services/user.ts:16-21 | the new user store is the old one plus the new user; returns it with an empty reminder list |
| Database.Store.UpdateProfile | src/services/user.ts:23-25 | the new user store is that of `UserService.UpdateProfile`; returns the user now stored under the id, or null |
| Database.Store.DeleteUser | src/services/user.ts:27-29 | the new user store is the old one without the id; the count is the deleted count |

## Left out

- Controllers, routes, middlewares, authentication, sessions, invite tokens,
  mail and file storage: they call the services but are not part of this
  model; the helpers in `src/util/` and the comment service are not part of
  this model either.
- `getAll` (both services) and `createProject`: plain reads and a plain
  insert with no logic beyond what `CreateTask`/`CreateUser` already model.
- `populate`: modelled as the identity on references; a reference to a
  deleted document (which populates to null and can make a later read
  throw) is not modelled.
- Malformed ids (the cast error Mongoose raises on a string that is not an
  ObjectId) are not modelled: ids are plain strings.
- Schema validation and defaults other than the task status default, the
  project `status` and invite token fields, and any update operator other
  than field overwrites and `$pull`/`$push` on the member and reminder
  lists are not modelled.
- Concurrency: each service call is one atomic step; the lost update
  between the read and the `save` of `addAdmin`/`addMember` when two calls
  interleave is not modelled.
- UserService.GetReminders: returns the reminders themselves, not the array
  of unresolved promises `getReminders` returns, because promise resolution
  is not modelled.
- ProjectService.Progress: uses the exact rational ceiling rather than the
  double-precision quotient, because floating point is not modelled; for
  some counts (7 of 100 tasks gives 7.000000000000001) the source rounds up
  to one more than the model.
- Database.Store.CreateTask and Database.Store.CreateUser: the fresh
  ObjectId is a parameter required not to be in use, because id generation
  is not modelled.

## Findings

| source | as written | input that shows it | evidently intended | confidence | as-written member | corrected member |
|---|---|---|---|---|---|---|
| src/services/user.ts:34-36 | the `filter` callback returns the array of matching entries, which is always truthy, so every project is returned | one project with an empty member list, user "u1", role "admin": it is returned | keep a project only when some entry is the user with the role | not executed | UserService.ProjectsByRoleAsWritten, UserService.ProjectsByRoleIgnoresMembership | UserService.ProjectsByRole |
| src/services/user.ts:44-46 | the same always-truthy callback, so every project is returned | one project with an empty member list, user "u1": it is returned | keep a project only when some entry is the user | not executed | UserService.UserProjectsAsWritten, UserService.ProjectsByRoleIgnoresMembership | UserService.UserProjects |
