/** The store the services read and write: the users, projects and tasks
    collections. Each service call that writes is a method that reads the
    documents it needs, checks them as the service does, and writes back;
    its postcondition ties the new collections to the transition function
    of the service module, about which the lemmas there are proved. */
module Database {
  import opened Results
  import opened Documents
  import opened Entities
  import ProjectService
  import TaskService
  import UserService

  class Store {
    var users: Collection<User>
    var projects: Collection<Project>
    var tasks: Collection<Task>

    /** Every collection has a unique `_id` index. */
    ghost predicate Valid()
      reads this
    {
      UniqueIds(users) && UniqueIds(projects) && UniqueIds(tasks)
    }

    constructor ()
      ensures Valid()
      ensures users == [] && projects == [] && tasks == []
    {
      users, projects, tasks := [], [], [];
    }

    // -------------------------------------------------------------------
    // src/services/project.ts
    // -------------------------------------------------------------------

    /** updateProject(id, values): returns the updated project. */
    method UpdateProject(id: Id, changes: ProjectService.ProjectChanges) returns (r: Result<Project>)
      requires Valid()
      modifies this
      ensures Valid() && users == old(users) && tasks == old(tasks)
      ensures match ProjectService.UpdateProject(old(projects), id, changes) {
                case Failure(e) => r == Failure(e) && projects == old(projects)
                case Success(after) =>
                  projects == after && r.Success? &&
                  ProjectService.GetProjectById(after, id) == Success(Doc(id, r.value))
              }
      ensures old(ProjectService.AllWellFormed(projects)) ==> ProjectService.AllWellFormed(projects)
    {
      ProjectService.UpdateProjectOutcome(projects, id, changes);
      var found := FindById(projects, id);
      if found.None? {
        return Failure(ProjectNotUpdated);
      }
      projects := Replace(projects, id, ProjectService.ApplyChanges(found.value.val, changes));
      var populated := ProjectService.GetProjectById(projects, id);
      r := Success(populated.value.val);
    }

    /** deleteProject(id): returns deleteOne's deletedCount. */
    method DeleteProject(id: Id) returns (deletedCount: nat)
      requires Valid()
      modifies this
      ensures Valid() && users == old(users) && tasks == old(tasks)
      ensures projects == ProjectService.DeleteProject(old(projects), id)
      ensures deletedCount == DeletedCount(old(projects), id)
    {
      ProjectService.DeleteProjectOutcome(projects, id, id);
      deletedCount := DeletedCount(projects, id);
      projects := Remove(projects, id);
    }

    /** deleteMember(projectId, userId): $pull, then the members of the
        re-read project. */
    method DeleteMember(projectId: Id, userId: Id) returns (r: Result<seq<Member>>)
      requires Valid()
      modifies this
      ensures Valid() && users == old(users) && tasks == old(tasks)
      ensures match ProjectService.DeleteMember(old(projects), projectId, userId) {
                case Failure(e) => r == Failure(e) && projects == old(projects)
                case Success(after) => projects == after && r == ProjectService.GetAllMembers(after, projectId)
              }
      ensures old(ProjectService.AllWellFormed(projects)) ==> ProjectService.AllWellFormed(projects)
    {
      ProjectService.DeleteMemberOutcome(projects, projectId, userId);
      var found := FindById(projects, projectId);
      if found.None? {
        return Failure(ProjectNotUpdated);
      }
      var project := found.value.val;
      projects := Replace(projects, projectId,
                          project.(members := ProjectService.PullMember(project.members, userId)));
      r := ProjectService.GetAllMembers(projects, projectId);
    }

    /** addAdmin(projectId, userId): findIndex, set the role in place, save,
        and return getMembersByRole(projectId, 'admin'). */
    method AddAdmin(projectId: Id, userId: Id) returns (r: Result<seq<Member>>)
      requires Valid()
      modifies this
      ensures Valid() && users == old(users) && tasks == old(tasks)
      ensures match ProjectService.AddAdmin(old(projects), projectId, userId) {
                case Failure(e) => r == Failure(e) && projects == old(projects)
                case Success(after) =>
                  projects == after && r == ProjectService.GetMembersByRole(after, projectId, ADMIN)
              }
      ensures old(ProjectService.AllWellFormed(projects)) ==> ProjectService.AllWellFormed(projects)
    {
      ProjectService.AddAdminOutcome(projects, projectId, userId);
      var found := ProjectService.GetProjectById(projects, projectId);
      if found.Failure? {
        return Failure(found.error);
      }
      var project := found.value.val;
      var userIndex := ProjectService.FirstEntry(project.members, userId);
      if userIndex < 0 {
        return Failure(NotAMember);
      }
      var members := project.members[userIndex := project.members[userIndex].(role := ADMIN)];
      projects := Replace(projects, projectId, project.(members := members));
      r := ProjectService.GetMembersByRole(projects, projectId, ADMIN);
    }

    /** sendReminder(memberId, senderId, projectId, message): returns the
        updated recipient. */
    method SendReminder(memberId: Id, senderId: Id, projectId: Id, message: string) returns (r: Result<User>)
      requires Valid()
      modifies this
      ensures Valid() && projects == old(projects) && tasks == old(tasks)
      ensures match ProjectService.SendReminder(old(users), memberId, senderId, projectId, message) {
                case Failure(e) => r == Failure(e) && users == old(users)
                case Success(after) => users == after && r.Success? &&
                                       FindById(after, memberId) == Some(Doc(memberId, r.value))
              }
    {
      ProjectService.SendReminderOutcome(users, memberId, senderId, projectId, message);
      var member := FindById(users, memberId);
      if member.None? {
        return Failure(ReminderNotSent);
      }
      var u := member.value.val;
      users := Replace(users, memberId, u.(reminders := u.reminders + [Reminder(projectId, senderId, message)]));
      var saved := FindById(users, memberId);
      r := Success(saved.value.val);
    }

    /** addMember(email, projectId): resolve the email, fetch the project,
        reject a duplicate, push and save. */
    method AddMember(email: string, projectId: Id) returns (r: Result<()>)
      requires Valid()
      modifies this
      ensures Valid() && users == old(users) && tasks == old(tasks)
      ensures match ProjectService.AddMember(old(users), old(projects), email, projectId) {
                case Failure(e) => r == Failure(e) && projects == old(projects)
                case Success(after) => r == Success(()) && projects == after
              }
      ensures old(ProjectService.AllWellFormed(projects)) ==> ProjectService.AllWellFormed(projects)
    {
      ProjectService.AddMemberOutcome(users, projects, email, projectId);
      var newMember := UserService.GetUserByEmail(users, email);
      if newMember.None? {
        return Failure(NoUserWithEmail);
      }
      var found := ProjectService.GetProjectById(projects, projectId);
      if found.Failure? {
        return Failure(found.error);
      }
      var project := found.value.val;
      var isMember := ProjectService.HasMember(project.members, newMember.value.id);
      if isMember {
        return Failure(AlreadyMember(newMember.value.val.username));
      }
      var members := project.members + [ProjectService.NewMember(newMember.value.id)];
      projects := Replace(projects, projectId, project.(members := members));
      r := Success(());
    }

    // -------------------------------------------------------------------
    // src/services/task.ts
    // -------------------------------------------------------------------

    /** createTask(values): saves the task under a fresh id and returns the
        re-read task. */
    method CreateTask(id: Id, values: TaskService.TaskValues) returns (task: Task)
      requires Valid() && FindById(tasks, id).None?
      modifies this
      ensures Valid() && users == old(users) && projects == old(projects)
      ensures tasks == TaskService.CreateTask(old(tasks), id, values)
      ensures task == TaskService.NewTask(values) && task.project == values.project &&
              task.member == values.member && task.assignedBy == values.assignedBy &&
              task.description == values.description && task.urgent == values.urgent
    {
      TaskService.CreateTaskOutcome(tasks, id, values, id, values.project);
      tasks := Insert(tasks, id, TaskService.NewTask(values));
      var populated := FindById(tasks, id);
      task := populated.value.val;
    }

    /** updateTask(id, values): returns the updated task; a null task makes
        populateTask throw. */
    method UpdateTask(id: Id, changes: TaskService.TaskChanges) returns (r: Result<Task>)
      requires Valid()
      modifies this
      ensures Valid() && users == old(users) && projects == old(projects)
      ensures match TaskService.UpdateTask(old(tasks), id, changes) {
                case Failure(e) => r == Failure(e) && tasks == old(tasks)
                case Success(after) => tasks == after && r.Success? &&
                                       FindById(after, id) == Some(Doc(id, r.value))
              }
    {
      TaskService.UpdateTaskOutcome(tasks, id, changes, id);
      var task := FindById(tasks, id);
      if task.None? {
        return Failure(TaskNotFound);
      }
      tasks := Replace(tasks, id, TaskService.ApplyChanges(task.value.val, changes));
      var populated := FindById(tasks, id);
      r := Success(populated.value.val);
    }

    /** deleteTask(id): returns deleteOne's deletedCount. */
    method DeleteTask(id: Id) returns (deletedCount: nat)
      requires Valid()
      modifies this
      ensures Valid() && users == old(users) && projects == old(projects)
      ensures tasks == TaskService.DeleteTask(old(tasks), id)
      ensures deletedCount == DeletedCount(old(tasks), id)
    {
      TaskService.DeleteTaskOutcome(tasks, id, id, "");
      deletedCount := DeletedCount(tasks, id);
      tasks := Remove(tasks, id);
    }

    // -------------------------------------------------------------------
    // src/services/user.ts
    // -------------------------------------------------------------------

    /** createUser(values): saves the user under a fresh id and returns it. */
    method CreateUser(id: Id, values: UserService.UserValues) returns (user: User)
      requires Valid() && FindById(users, id).None?
      modifies this
      ensures Valid() && projects == old(projects) && tasks == old(tasks)
      ensures users == UserService.CreateUser(old(users), id, values)
      ensures user == User(values.username, values.email, [])
    {
      UserService.CreateUserOutcome(users, id, values, id);
      users := Insert(users, id, UserService.NewUser(values));
      var saved := FindById(users, id);
      user := saved.value.val;
    }

    /** updateProfile(id, values): the updated user, or null. */
    method UpdateProfile(id: Id, changes: UserService.UserChanges) returns (r: Option<Doc<User>>)
      requires Valid()
      modifies this
      ensures Valid() && projects == old(projects) && tasks == old(tasks)
      ensures users == UserService.UpdateProfile(old(users), id, changes)
      ensures r == UserService.GetUserById(users, id)
    {
      UserService.UpdateProfileOutcome(users, id, changes, id);
      var found := FindById(users, id);
      if found.Some? {
        users := Replace(users, id, UserService.ApplyChanges(found.value.val, changes));
      }
      r := FindById(users, id);
    }

    /** deleteUser(id): returns deleteOne's deletedCount. */
    method DeleteUser(id: Id) returns (deletedCount: nat)
      requires Valid()
      modifies this
      ensures Valid() && projects == old(projects) && tasks == old(tasks)
      ensures users == UserService.DeleteUser(old(users), id)
      ensures deletedCount == DeletedCount(old(users), id)
    {
      UserService.DeleteUserOutcome(users, id, id);
      deletedCount := DeletedCount(users, id);
      users := Remove(users, id);
    }
  }
}
