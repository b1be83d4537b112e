/** src/services/user.ts: the user store, the project queries per user and
    the reminder inbox. */
module UserService {
  import opened Results
  import opened Documents
  import opened Entities
  import Arrays

  /** The values `new User(values)` is given; the reminder list starts empty. */
  datatype UserValues = UserValues(username: string, email: string)

  /** The fields updateProfile may overwrite. */
  datatype UserChanges = UserChanges(username: Option<string>, email: Option<string>)

  /** getUserById: findById. */
  function GetUserById(users: Collection<User>, id: Id): (r: Option<Doc<User>>)
    ensures r.None? <==> forall i :: 0 <= i < |users| ==> users[i].id != id
    ensures r.Some? ==> r.value in users && r.value.id == id
  {
    FindById(users, id)
  }

  /** The query { email }. */
  function EmailIs(email: string): Doc<User> -> bool
  {
    (d: Doc<User>) => d.val.email == email
  }

  /** getUserByEmail: findOne({ email }), the first such user in natural
      order, since nothing makes emails unique. */
  function GetUserByEmail(users: Collection<User>, email: string): (r: Option<Doc<User>>)
    ensures r.None? <==> forall i :: 0 <= i < |users| ==> users[i].val.email != email
    ensures r.Some? ==> exists i :: 0 <= i < |users| && users[i] == r.value && r.value.val.email == email &&
                                    forall j :: 0 <= j < i ==> users[j].val.email != email
  {
    FindOne(users, EmailIs(email))
  }

  function NewUser(values: UserValues): User
  {
    User(values.username, values.email, [])
  }

  function ApplyChanges(u: User, changes: UserChanges): User
  {
    u.(username := Overwrite(u.username, changes.username),
       email := Overwrite(u.email, changes.email))
  }

  /** createUser: the new user is saved under a fresh id. */
  function CreateUser(users: Collection<User>, id: Id, values: UserValues): Collection<User>
  {
    Insert(users, id, NewUser(values))
  }

  /** updateProfile: findByIdAndUpdate, which changes nothing when the id is
      absent. */
  function UpdateProfile(users: Collection<User>, id: Id, changes: UserChanges): Collection<User>
  {
    match FindById(users, id)
    case None => users
    case Some(d) => Replace(users, id, ApplyChanges(d.val, changes))
  }

  /** deleteUser: deleteOne({ _id: id }). */
  function DeleteUser(users: Collection<User>, id: Id): Collection<User>
  {
    Remove(users, id)
  }

  /** getReminders: the reminders of the user, one entry per stored
      reminder; reading the reminders of a null user fails. */
  function GetReminders(users: Collection<User>, id: Id): (r: Result<seq<Reminder>>)
    ensures r.Failure? <==> FindById(users, id).None?
    ensures r.Failure? ==> r.error == UserNotFound
    ensures r.Success? ==> Doc(id, FindById(users, id).value.val) in users &&
                           r.value == FindById(users, id).value.val.reminders
  {
    match FindById(users, id)
    case None => Failure(UserNotFound)
    case Some(d) => Success(d.val.reminders)
  }

  /** JavaScript truthiness of an array value: every array, the empty one
      included, is truthy. */
  function ArrayIsTruthy<T>(a: seq<T>): bool
  {
    true
  }

  /** The callback of getProjectsByRole as written: it returns the array of
      matching entries, not whether there is one. */
  function HoldsRoleInAsWritten(id: Id, role: string): Doc<Project> -> bool
  {
    (d: Doc<Project>) =>
      ArrayIsTruthy(Arrays.Filter(d.val.members, IsUserWithRole(id, role)))
  }

  /** The callback of getUserProjects as written. */
  function HasEntryInAsWritten(id: Id): Doc<Project> -> bool
  {
    (d: Doc<Project>) => ArrayIsTruthy(Arrays.Filter(d.val.members, IsUser(id)))
  }

  /** getProjectsByRole as written: the filter keeps every project. */
  function ProjectsByRoleAsWritten(projects: Collection<Project>, id: Id, role: string): (r: Collection<Project>)
    ensures r == projects
  {
    Arrays.FilterKeepsAll(projects, HoldsRoleInAsWritten(id, role));
    Arrays.Filter(projects, HoldsRoleInAsWritten(id, role))
  }

  /** getUserProjects as written: the filter keeps every project. */
  function UserProjectsAsWritten(projects: Collection<Project>, id: Id): (r: Collection<Project>)
    ensures r == projects
  {
    Arrays.FilterKeepsAll(projects, HasEntryInAsWritten(id));
    Arrays.Filter(projects, HasEntryInAsWritten(id))
  }

  /** The test the first callback evidently means: some entry of the
      member list is the user with that role. */
  function HoldsRoleIn(id: Id, role: string): Doc<Project> -> bool
  {
    (d: Doc<Project>) => Arrays.Some(d.val.members, IsUserWithRole(id, role))
  }

  /** The test the second callback evidently means: some entry of the
      member list is the user. */
  function HasEntryIn(id: Id): Doc<Project> -> bool
  {
    (d: Doc<Project>) => Arrays.Some(d.val.members, IsUser(id))
  }

  /** getProjectsByRole as intended: the projects in which the user holds
      the role, in natural order. */
  function ProjectsByRole(projects: Collection<Project>, id: Id, role: string): (r: Collection<Project>)
    ensures Arrays.IsSubsequence(r, projects)
    ensures forall i :: 0 <= i < |r| ==>
              (r[i] in projects &&
               exists j :: 0 <= j < |r[i].val.members| &&
                 r[i].val.members[j].user == id && r[i].val.members[j].role == role)
    ensures forall i, j :: 0 <= i < |projects| && 0 <= j < |projects[i].val.members| ==>
              (projects[i].val.members[j].user == id && projects[i].val.members[j].role == role ==>
                 projects[i] in r)
    ensures forall i :: 0 <= i < |projects| ==>
              multiset(r)[projects[i]] ==
                if HoldsRoleIn(id, role)(projects[i]) then multiset(projects)[projects[i]] else 0
  {
    Arrays.FilterSpec(projects, HoldsRoleIn(id, role));
    Arrays.Filter(projects, HoldsRoleIn(id, role))
  }

  /** getUserProjects as intended: the projects whose member list holds the
      user, in natural order. */
  function UserProjects(projects: Collection<Project>, id: Id): (r: Collection<Project>)
    ensures Arrays.IsSubsequence(r, projects)
    ensures forall i :: 0 <= i < |r| ==>
              (r[i] in projects && exists j :: 0 <= j < |r[i].val.members| && r[i].val.members[j].user == id)
    ensures forall i, j :: 0 <= i < |projects| && 0 <= j < |projects[i].val.members| ==>
              (projects[i].val.members[j].user == id ==> projects[i] in r)
    ensures forall i :: 0 <= i < |projects| ==>
              multiset(r)[projects[i]] ==
                if HasEntryIn(id)(projects[i]) then multiset(projects)[projects[i]] else 0
  {
    Arrays.FilterSpec(projects, HasEntryIn(id));
    Arrays.Filter(projects, HasEntryIn(id))
  }

  /** The discrepancy: a project in which the user holds no role at all is
      returned by the code as written and not by the intended query. */
  lemma ProjectsByRoleIgnoresMembership()
    ensures var projects := [Doc("p1", Project("n", "c", "d", 0, []))];
            && ProjectsByRoleAsWritten(projects, "u1", ADMIN) == projects
            && ProjectsByRole(projects, "u1", ADMIN) == []
            && UserProjectsAsWritten(projects, "u1") == projects
            && UserProjects(projects, "u1") == []
  {
  }

  /** createUser adds one user with the given values and an empty reminder
      list; every other user is as before. */
  lemma CreateUserOutcome(users: Collection<User>, id: Id, values: UserValues, k: Id)
    requires UniqueIds(users) && FindById(users, id).None?
    ensures UniqueIds(CreateUser(users, id, values))
    ensures GetUserById(CreateUser(users, id, values), k) ==
              if k == id then Some(Doc(id, User(values.username, values.email, [])))
              else GetUserById(users, k)
    ensures GetUserByEmail(CreateUser(users, id, values), values.email).Some?
    ensures GetUserByEmail(users, values.email).None? ==>
              GetUserByEmail(CreateUser(users, id, values), values.email) == Some(Doc(id, NewUser(values)))
  {
    InsertFind(users, id, NewUser(values), k);
    var after := CreateUser(users, id, values);
    assert after[|users|] == Doc(id, NewUser(values));
    assert forall i :: 0 <= i < |users| ==> after[i] == users[i];
  }

  /** updateProfile overwrites the given fields of the user with that id,
      keeps its reminders, and returns the updated user; on an absent id
      it changes nothing and returns null. */
  lemma UpdateProfileOutcome(users: Collection<User>, id: Id, changes: UserChanges, k: Id)
    requires UniqueIds(users)
    ensures UniqueIds(UpdateProfile(users, id, changes))
    ensures FindById(users, id).None? ==>
              UpdateProfile(users, id, changes) == users && GetUserById(UpdateProfile(users, id, changes), id).None?
    ensures FindById(users, id).Some? ==>
              var u := FindById(users, id).value.val;
              && GetUserById(UpdateProfile(users, id, changes), id) == Some(Doc(id, ApplyChanges(u, changes)))
              && ApplyChanges(u, changes).reminders == u.reminders
              && ApplyChanges(u, changes).username == Overwrite(u.username, changes.username)
              && ApplyChanges(u, changes).email == Overwrite(u.email, changes.email)
    ensures k != id ==> GetUserById(UpdateProfile(users, id, changes), k) == GetUserById(users, k)
  {
    if FindById(users, id).Some? {
      var u := FindById(users, id).value.val;
      ReplaceFind(users, id, ApplyChanges(u, changes), k);
      ReplaceFind(users, id, ApplyChanges(u, changes), id);
    }
  }

  /** deleteUser removes only the user with that id. */
  lemma DeleteUserOutcome(users: Collection<User>, id: Id, k: Id)
    requires UniqueIds(users)
    ensures UniqueIds(DeleteUser(users, id))
    ensures GetUserById(DeleteUser(users, id), id).None?
    ensures k != id ==> GetUserById(DeleteUser(users, id), k) == GetUserById(users, k)
    ensures DeletedCount(users, id) == if GetUserById(users, id).Some? then 1 else 0
  {
    RemoveFind(users, id, k);
    RemoveFind(users, id, id);
  }
}
