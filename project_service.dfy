/** src/services/project.ts: project lookup and update, the operations on a
    project's member list, reminders and progress. */
module ProjectService {
  import opened Results
  import opened Documents
  import opened Entities
  import Arrays
  import TaskService
  import UserService

  /** The fields updateProject is given by its callers. */
  datatype ProjectChanges = ProjectChanges(
    name: Option<string>,
    client: Option<string>,
    description: Option<string>,
    deadline: Option<int>)

  function ApplyChanges(p: Project, changes: ProjectChanges): Project
  {
    p.(name := Overwrite(p.name, changes.name),
       client := Overwrite(p.client, changes.client),
       description := Overwrite(p.description, changes.description),
       deadline := Overwrite(p.deadline, changes.deadline))
  }

  // ---------------------------------------------------------------------
  // The member list of one project
  // ---------------------------------------------------------------------

  function IsNotUser(user: Id): Member -> bool
  {
    (m: Member) => m.user != user
  }

  /** members.some(member => member.user is user). */
  function HasMember(members: seq<Member>, user: Id): (b: bool)
    ensures b <==> exists i :: 0 <= i < |members| && members[i].user == user
  {
    Arrays.Some(members, IsUser(user))
  }

  /** members.findIndex(member => member.user.equals(user)). */
  function FirstEntry(members: seq<Member>, user: Id): (i: int)
    ensures -1 <= i < |members|
    ensures i == -1 <==> !HasMember(members, user)
    ensures 0 <= i ==> members[i].user == user && forall j :: 0 <= j < i ==> members[j].user != user
  {
    Arrays.FindIndex(members, IsUser(user))
  }

  /** The entry addMember pushes. */
  function NewMember(user: Id): Member
  {
    Member(user, MEMBER, false)
  }

  /** members.filter(member => role === member.role): exactly the entries
      with that role, each as often as it occurs, in their order. */
  function MembersByRole(members: seq<Member>, role: string): (r: seq<Member>)
    ensures Arrays.IsSubsequence(r, members)
    ensures forall i :: 0 <= i < |r| ==> r[i] in members && r[i].role == role
    ensures forall i :: 0 <= i < |members| && members[i].role == role ==> members[i] in r
    ensures forall i :: 0 <= i < |members| ==>
              multiset(r)[members[i]] == if members[i].role == role then multiset(members)[members[i]] else 0
  {
    Arrays.FilterSpec(members, HasRole(role));
    Arrays.Filter(members, HasRole(role))
  }

  /** $pull: { members: { user } }: every entry of the user goes, the others
      stay in their order. */
  function PullMember(members: seq<Member>, user: Id): (r: seq<Member>)
    ensures Arrays.IsSubsequence(r, members)
    ensures forall i :: 0 <= i < |r| ==> r[i] in members && r[i].user != user
    ensures forall i :: 0 <= i < |members| && members[i].user != user ==> members[i] in r
    ensures forall i :: 0 <= i < |members| ==>
              multiset(r)[members[i]] == if members[i].user != user then multiset(members)[members[i]] else 0
  {
    Arrays.FilterSpec(members, IsNotUser(user));
    Arrays.Filter(members, IsNotUser(user))
  }

  /** The in-place promotion of addAdmin: the first entry of the user gets
      the role 'admin'; with no entry, members[-1] is undefined and the
      assignment throws. */
  function Promote(members: seq<Member>, user: Id): (r: Result<seq<Member>>)
    ensures r.Failure? <==> !HasMember(members, user)
    ensures r.Failure? ==> r.error == NotAMember
    ensures r.Success? ==>
              var i := FirstEntry(members, user);
              && |r.value| == |members|
              && r.value[i] == Member(user, ADMIN, members[i].owner)
              && forall j :: 0 <= j < |members| && j != i ==> r.value[j] == members[j]
  {
    var i := FirstEntry(members, user);
    if i < 0 then Failure(NotAMember)
    else Success(members[i := members[i].(role := ADMIN)])
  }

  /** No user has two entries. */
  ghost predicate UniqueMembers(members: seq<Member>)
  {
    forall i, j :: 0 <= i < |members| && 0 <= j < |members| && members[i].user == members[j].user ==> i == j
  }

  /** At most one entry carries the owner flag. */
  ghost predicate AtMostOneOwner(members: seq<Member>)
  {
    forall i, j :: 0 <= i < |members| && 0 <= j < |members| && members[i].owner && members[j].owner ==> i == j
  }

  ghost predicate WellFormed(members: seq<Member>)
  {
    UniqueMembers(members) && AtMostOneOwner(members)
  }

  /** Every project's member list is well formed. */
  ghost predicate AllWellFormed(projects: Collection<Project>)
  {
    forall i :: 0 <= i < |projects| ==> WellFormed(projects[i].val.members)
  }

  /** Promoting twice is promoting once. */
  lemma PromoteIdempotent(members: seq<Member>, user: Id)
    requires Promote(members, user).Success?
    ensures Promote(Promote(members, user).value, user) == Promote(members, user)
  {
    var promoted := Promote(members, user).value;
    var i := FirstEntry(members, user);
    assert forall j :: 0 <= j < |members| ==> promoted[j].user == members[j].user;
    assert FirstEntry(promoted, user) == i by {
      var k := FirstEntry(promoted, user);
      assert k != -1 by { assert promoted[i].user == user; }
    }
    assert promoted[i := promoted[i].(role := ADMIN)] == promoted;
  }

  /** After a promotion the user's first entry has role 'admin', so the
      user is among the admins, and the list stays well formed. */
  lemma PromotedIsAdmin(members: seq<Member>, user: Id)
    requires Promote(members, user).Success?
    ensures exists m :: m in MembersByRole(Promote(members, user).value, ADMIN) && m.user == user
    ensures WellFormed(members) ==> WellFormed(Promote(members, user).value)
  {
  }

  /** Pulling a user removes all its entries, pulling a non-member changes
      nothing, and the list stays well formed. */
  lemma PullMemberOutcome(members: seq<Member>, user: Id)
    ensures !HasMember(PullMember(members, user), user)
    ensures !HasMember(members, user) ==> PullMember(members, user) == members
    ensures WellFormed(members) ==> WellFormed(PullMember(members, user))
    ensures (forall i :: 0 <= i < |members| ==> members[i].user == user) ==> PullMember(members, user) == []
  {
    var r := PullMember(members, user);
    if forall i :: 0 <= i < |members| ==> members[i].user == user {
      Arrays.FilterDropsAll(members, IsNotUser(user));
    }
    if !HasMember(members, user) {
      Arrays.FilterKeepsAll(members, IsNotUser(user));
    }
    if WellFormed(members) {
      var sameUser := (a: Member, b: Member) => a.user == b.user;
      var bothOwners := (a: Member, b: Member) => a.owner && b.owner;
      assert Arrays.Distinct(members, sameUser);
      assert Arrays.Distinct(members, bothOwners);
      Arrays.SubsequenceKeepsDistinct(r, members, sameUser);
      Arrays.SubsequenceKeepsDistinct(r, members, bothOwners);
    }
  }

  /** Appending the entry of a user who has none keeps the list well formed
      and gives the user exactly one entry. */
  lemma AppendKeepsWellFormed(members: seq<Member>, user: Id)
    requires WellFormed(members) && !HasMember(members, user)
    ensures WellFormed(members + [NewMember(user)])
    ensures forall i :: 0 <= i < |members| + 1 && (members + [NewMember(user)])[i].user == user ==> i == |members|
  {
  }

  // ---------------------------------------------------------------------
  // Reads of the project store
  // ---------------------------------------------------------------------

  /** getprojectById: the project, or 'Project not found'. */
  function GetProjectById(projects: Collection<Project>, id: Id): (r: Result<Doc<Project>>)
    ensures r.Failure? <==> forall i :: 0 <= i < |projects| ==> projects[i].id != id
    ensures r.Failure? ==> r.error == ProjectNotFound
    ensures r.Success? ==> r.value in projects && r.value.id == id
  {
    match FindById(projects, id)
    case None => Failure(ProjectNotFound)
    case Some(d) => Success(d)
  }

  /** getMembersByRole. */
  function GetMembersByRole(projects: Collection<Project>, id: Id, role: string): (r: Result<seq<Member>>)
    ensures r.Failure? <==> GetProjectById(projects, id).Failure?
    ensures r.Failure? ==> r.error == ProjectNotFound
    ensures r.Success? ==> r.value == MembersByRole(GetProjectById(projects, id).value.val.members, role)
  {
    match GetProjectById(projects, id)
    case Failure(e) => Failure(e)
    case Success(d) => Success(MembersByRole(d.val.members, role))
  }

  /** getAllMembers. */
  function GetAllMembers(projects: Collection<Project>, id: Id): (r: Result<seq<Member>>)
    ensures r.Failure? <==> GetProjectById(projects, id).Failure?
    ensures r.Failure? ==> r.error == ProjectNotFound
    ensures r.Success? ==> Doc(id, GetProjectById(projects, id).value.val) in projects &&
                           r.value == GetProjectById(projects, id).value.val.members
  {
    match GetProjectById(projects, id)
    case Failure(e) => Failure(e)
    case Success(d) => Success(d.val.members)
  }

  // ---------------------------------------------------------------------
  // Progress
  // ---------------------------------------------------------------------

  /** The number of tasks whose status is 'Completed' (the length of the
      filtered array). */
  function IsCompleted(): Doc<Task> -> bool
  {
    (d: Doc<Task>) => d.val.status == COMPLETED
  }

  function CompletedCount(tasks: seq<Doc<Task>>): (n: nat)
    ensures n == |Arrays.Filter(tasks, IsCompleted())|
    ensures n <= |tasks|
    ensures n == 0 <==> forall i :: 0 <= i < |tasks| ==> tasks[i].val.status != COMPLETED
    ensures n == |tasks| <==> forall i :: 0 <= i < |tasks| ==> tasks[i].val.status == COMPLETED
  {
    if tasks == [] then 0
    else
      assert forall i :: 1 <= i < |tasks| ==> tasks[i] == tasks[1..][i - 1];
      (if tasks[0].val.status == COMPLETED then 1 else 0) + CompletedCount(tasks[1..])
  }

  /** Math.ceil(a / b) on naturals. */
  function CeilDiv(a: nat, b: nat): (q: nat)
    requires b > 0
    ensures (q - 1) * b < a <= q * b
  {
    var q := (a + b - 1) / b;
    assert q * b + (a + b - 1) % b == a + b - 1;
    q
  }

  /** getProgress on the project's tasks: the completed percentage rounded
      up; with no task the source computes 0/0, which is NaN (None). */
  function Progress(tasks: seq<Doc<Task>>): (r: Option<nat>)
    ensures r.None? <==> |tasks| == 0
    ensures r.Some? ==> r.value <= 100
    ensures r.Some? ==> (r.value == 0 <==> CompletedCount(tasks) == 0)
    ensures r.Some? && CompletedCount(tasks) == |tasks| ==> r.value == 100
    ensures r.Some? ==> (r.value - 1) * |tasks| < 100 * CompletedCount(tasks) <= r.value * |tasks|
  {
    if |tasks| == 0 then None
    else
      var c, t := CompletedCount(tasks), |tasks|;
      var q := CeilDiv(100 * c, t);
      CeilBounds(100 * c, t, q);
      Some(q)
  }

  /** The bounds the ceiling keeps on a fraction a/t of 100. */
  lemma CeilBounds(a: nat, t: nat, q: nat)
    requires t > 0 && a <= 100 * t && q == CeilDiv(a, t)
    ensures (q - 1) * t < a <= q * t
    ensures q <= 100
    ensures q == 0 <==> a == 0
    ensures a == 100 * t ==> q == 100
  {
    if q > 100 {
      MulMonotone(100, q - 1, t);
    }
    if a == 0 && q > 0 {
      MulMonotone(0, q - 1, t);
    }
    if a == 100 * t && q < 100 {
      MulMonotone(q, 99, t);
    }
  }

  lemma MulMonotone(x: int, y: int, t: nat)
    requires x <= y
    ensures x * t <= y * t
  {
  }

  /** getProgress(projectId). */
  function GetProgress(tasks: Collection<Task>, projectId: Id): (r: Option<nat>)
    ensures r.None? <==> forall i :: 0 <= i < |tasks| ==> tasks[i].val.project != projectId
    ensures r.Some? ==> r.value <= 100
    ensures r.Some? ==>
              (r.value == 0 <==>
                 forall i :: 0 <= i < |tasks| && tasks[i].val.project == projectId ==> tasks[i].val.status != COMPLETED)
    ensures r.Some? &&
            (forall i :: 0 <= i < |tasks| && tasks[i].val.project == projectId ==> tasks[i].val.status == COMPLETED) ==>
              r == Some(100)
  {
    var projectTasks := TaskService.GetProjectTasks(tasks, projectId);
    assert forall i :: 0 <= i < |tasks| && tasks[i].val.project == projectId ==> tasks[i] in projectTasks;
    Progress(projectTasks)
  }

  /** Completing tasks never lowers the progress of a list of the same
      length. */
  lemma ProgressMonotone(before: seq<Doc<Task>>, after: seq<Doc<Task>>)
    requires |before| == |after| > 0
    requires forall i :: 0 <= i < |before| && before[i].val.status == COMPLETED ==>
               after[i].val.status == COMPLETED
    ensures Progress(before).value <= Progress(after).value
  {
    CompletedCountMonotone(before, after);
    var t := |before|;
    var q, q' := Progress(before).value, Progress(after).value;
    if q > q' {
      MulMonotone(q', q - 1, t);
    }
  }

  lemma {:induction false} CompletedCountMonotone(before: seq<Doc<Task>>, after: seq<Doc<Task>>)
    requires |before| == |after|
    requires forall i :: 0 <= i < |before| && before[i].val.status == COMPLETED ==>
               after[i].val.status == COMPLETED
    ensures CompletedCount(before) <= CompletedCount(after)
  {
    if before != [] {
      CompletedCountMonotone(before[1..], after[1..]);
    }
  }

  /** Setting a task of the project to 'Completed' never lowers the
      project's progress. */
  lemma CompletingTaskRaisesProgress(tasks: Collection<Task>, id: Id, projectId: Id)
    requires UniqueIds(tasks)
    ensures var completed := TaskService.TaskChanges(None, Some(COMPLETED), None);
            TaskService.UpdateTask(tasks, id, completed).Success? ==>
              var after := TaskService.UpdateTask(tasks, id, completed).value;
              && (GetProgress(after, projectId).None? <==> GetProgress(tasks, projectId).None?)
              && (GetProgress(tasks, projectId).Some? ==>
                    GetProgress(tasks, projectId).value <= GetProgress(after, projectId).value)
  {
    var completed := TaskService.TaskChanges(None, Some(COMPLETED), None);
    if TaskService.UpdateTask(tasks, id, completed).Success? {
      var t := FindById(tasks, id).value.val;
      var t' := TaskService.ApplyChanges(t, completed);
      forall i | 0 <= i < |tasks| && tasks[i].id == id
        ensures TaskService.InProject(projectId)(tasks[i]) == TaskService.InProject(projectId)(Doc(id, t'))
      {
        FindByIdUnique(tasks, id, tasks[i]);
      }
      FilterReplace(tasks, id, t', TaskService.InProject(projectId));
      var before := TaskService.GetProjectTasks(tasks, projectId);
      var after := TaskService.GetProjectTasks(Replace(tasks, id, t'), projectId);
      assert after == Replace(before, id, t');
      if |before| > 0 {
        ProgressMonotone(before, after);
      }
    }
  }

  // ---------------------------------------------------------------------
  // Writes to the stores
  // ---------------------------------------------------------------------

  /** updateProject: findByIdAndUpdate; a null result throws 'Project could
      not be updated'. */
  function UpdateProject(projects: Collection<Project>, id: Id, changes: ProjectChanges): Result<Collection<Project>>
  {
    match FindById(projects, id)
    case None => Failure(ProjectNotUpdated)
    case Some(d) => Success(Replace(projects, id, ApplyChanges(d.val, changes)))
  }

  /** deleteProject: deleteOne({ _id: id }). */
  function DeleteProject(projects: Collection<Project>, id: Id): Collection<Project>
  {
    Remove(projects, id)
  }

  /** deleteMember: updateProject with $pull, so an unknown project throws
      'Project could not be updated'. */
  function DeleteMember(projects: Collection<Project>, projectId: Id, userId: Id): Result<Collection<Project>>
  {
    match FindById(projects, projectId)
    case None => Failure(ProjectNotUpdated)
    case Some(d) => Success(Replace(projects, projectId, d.val.(members := PullMember(d.val.members, userId))))
  }

  /** addAdmin: fetch the project, promote the user's first entry in place,
      save. */
  function AddAdmin(projects: Collection<Project>, projectId: Id, userId: Id): Result<Collection<Project>>
  {
    match GetProjectById(projects, projectId)
    case Failure(e) => Failure(e)
    case Success(d) =>
      match Promote(d.val.members, userId)
      case Failure(e) => Failure(e)
      case Success(members) => Success(Replace(projects, projectId, d.val.(members := members)))
  }

  /** addMember: resolve the email first, then fetch the project, reject a
      user who already has an entry, push the new entry and save. */
  function AddMember(users: Collection<User>, projects: Collection<Project>, email: string, projectId: Id)
    : Result<Collection<Project>>
  {
    match UserService.GetUserByEmail(users, email)
    case None => Failure(NoUserWithEmail)
    case Some(u) =>
      match GetProjectById(projects, projectId)
      case Failure(e) => Failure(e)
      case Success(d) =>
        if HasMember(d.val.members, u.id) then Failure(AlreadyMember(u.val.username))
        else Success(Replace(projects, projectId, d.val.(members := d.val.members + [NewMember(u.id)])))
  }

  /** sendReminder: $push onto the recipient's reminders; a null result
      throws. */
  function SendReminder(users: Collection<User>, memberId: Id, senderId: Id, projectId: Id, message: string)
    : Result<Collection<User>>
  {
    match FindById(users, memberId)
    case None => Failure(ReminderNotSent)
    case Some(u) =>
      Success(Replace(users, memberId, u.val.(reminders := u.val.reminders + [Reminder(projectId, senderId, message)])))
  }

  /** Writing a project whose member list is well formed keeps every
      member list well formed. */
  lemma ReplaceKeepsWellFormed(projects: Collection<Project>, id: Id, p: Project)
    requires AllWellFormed(projects) && WellFormed(p.members)
    ensures AllWellFormed(Replace(projects, id, p))
  {
  }

  /** updateProject fails exactly when the id does not resolve; otherwise
      the project takes the given fields, keeps its member list, and no
      other project changes. */
  lemma UpdateProjectOutcome(projects: Collection<Project>, id: Id, changes: ProjectChanges)
    requires UniqueIds(projects)
    ensures UpdateProject(projects, id, changes).Failure? <==> GetProjectById(projects, id).Failure?
    ensures UpdateProject(projects, id, changes).Failure? ==>
              UpdateProject(projects, id, changes).error == ProjectNotUpdated
    ensures UpdateProject(projects, id, changes).Success? ==>
              var p := GetProjectById(projects, id).value.val;
              var after := UpdateProject(projects, id, changes).value;
              && UniqueIds(after)
              && GetProjectById(after, id) == Success(Doc(id, ApplyChanges(p, changes)))
              && ApplyChanges(p, changes).members == p.members
              && (forall k :: k != id ==> FindById(after, k) == FindById(projects, k))
              && (AllWellFormed(projects) ==> AllWellFormed(after))
  {
    if FindById(projects, id).Some? {
      var p := FindById(projects, id).value.val;
      ReplaceKeepsOthers(projects, id, ApplyChanges(p, changes));
      ReplaceFind(projects, id, ApplyChanges(p, changes), id);
      if AllWellFormed(projects) {
        FindByIdUnique(projects, id, FindById(projects, id).value);
        ReplaceKeepsWellFormed(projects, id, ApplyChanges(p, changes));
      }
    }
  }

  /** deleteProject removes only that project. */
  lemma DeleteProjectOutcome(projects: Collection<Project>, id: Id, k: Id)
    requires UniqueIds(projects)
    ensures UniqueIds(DeleteProject(projects, id))
    ensures GetProjectById(DeleteProject(projects, id), id).Failure?
    ensures k != id ==> FindById(DeleteProject(projects, id), k) == FindById(projects, k)
  {
    RemoveFind(projects, id, k);
    RemoveFind(projects, id, id);
  }

  /** deleteMember fails exactly when the project does not resolve;
      otherwise every entry of the user is gone, the others keep their
      order, removing a non-member changes nothing, and no other project
      changes. */
  lemma DeleteMemberOutcome(projects: Collection<Project>, projectId: Id, userId: Id)
    requires UniqueIds(projects)
    ensures DeleteMember(projects, projectId, userId).Failure? <==> GetProjectById(projects, projectId).Failure?
    ensures DeleteMember(projects, projectId, userId).Failure? ==>
              DeleteMember(projects, projectId, userId).error == ProjectNotUpdated
    ensures DeleteMember(projects, projectId, userId).Success? ==>
              var members := GetProjectById(projects, projectId).value.val.members;
              var after := DeleteMember(projects, projectId, userId).value;
              && UniqueIds(after)
              && GetAllMembers(after, projectId) == Success(PullMember(members, userId))
              && !HasMember(GetAllMembers(after, projectId).value, userId)
              && (!HasMember(members, userId) ==> after == projects)
              && (forall k :: k != projectId ==> FindById(after, k) == FindById(projects, k))
              && (AllWellFormed(projects) ==> AllWellFormed(after))
  {
    if FindById(projects, projectId).Some? {
      var d := FindById(projects, projectId).value;
      var p' := d.val.(members := PullMember(d.val.members, userId));
      ReplaceKeepsOthers(projects, projectId, p');
      ReplaceFind(projects, projectId, p', projectId);
      PullMemberOutcome(d.val.members, userId);
      FindByIdUnique(projects, projectId, d);
      if !HasMember(d.val.members, userId) {
        assert p' == d.val;
        ReplaceSame(projects, projectId, d.val);
      }
      if AllWellFormed(projects) {
        ReplaceKeepsWellFormed(projects, projectId, p');
      }
    }
  }

  /** addAdmin fails with 'Project not found' on an unknown project and
      with NotAMember when the user has no entry; otherwise the user's
      first entry becomes 'admin', the returned admins include the user,
      and no other project changes. */
  lemma AddAdminOutcome(projects: Collection<Project>, projectId: Id, userId: Id)
    requires UniqueIds(projects)
    ensures AddAdmin(projects, projectId, userId) == Failure(ProjectNotFound) <==>
              GetProjectById(projects, projectId).Failure?
    ensures AddAdmin(projects, projectId, userId) == Failure(NotAMember) <==>
              GetProjectById(projects, projectId).Success? &&
              !HasMember(GetProjectById(projects, projectId).value.val.members, userId)
    ensures GetProjectById(projects, projectId).Success? &&
            HasMember(GetProjectById(projects, projectId).value.val.members, userId) ==>
              AddAdmin(projects, projectId, userId).Success?
    ensures AddAdmin(projects, projectId, userId).Success? ==>
              var members := GetProjectById(projects, projectId).value.val.members;
              var after := AddAdmin(projects, projectId, userId).value;
              && UniqueIds(after)
              && GetAllMembers(after, projectId) == Success(Promote(members, userId).value)
              && GetMembersByRole(after, projectId, ADMIN).Success?
              && (exists m :: m in GetMembersByRole(after, projectId, ADMIN).value && m.user == userId)
              && (forall k :: k != projectId ==> FindById(after, k) == FindById(projects, k))
              && (AllWellFormed(projects) ==> AllWellFormed(after))
  {
    if FindById(projects, projectId).Some? && HasMember(FindById(projects, projectId).value.val.members, userId) {
      var d := FindById(projects, projectId).value;
      var p' := d.val.(members := Promote(d.val.members, userId).value);
      ReplaceKeepsOthers(projects, projectId, p');
      ReplaceFind(projects, projectId, p', projectId);
      PromotedIsAdmin(d.val.members, userId);
      if AllWellFormed(projects) {
        FindByIdUnique(projects, projectId, d);
        ReplaceKeepsWellFormed(projects, projectId, p');
      }
    }
  }

  /** Repeating addAdmin gives the same store. */
  lemma AddAdminIdempotent(projects: Collection<Project>, projectId: Id, userId: Id)
    requires UniqueIds(projects) && AddAdmin(projects, projectId, userId).Success?
    ensures AddAdmin(AddAdmin(projects, projectId, userId).value, projectId, userId) ==
              AddAdmin(projects, projectId, userId)
  {
    var d := FindById(projects, projectId).value;
    var promoted := Promote(d.val.members, userId).value;
    var p' := d.val.(members := promoted);
    var after := Replace(projects, projectId, p');
    ReplaceFind(projects, projectId, p', projectId);
    PromoteIdempotent(d.val.members, userId);
    assert p'.(members := Promote(promoted, userId).value) == p';
    ReplaceTwice(projects, projectId, p');
  }

  /** addMember fails with 'No user found with that email' exactly when no
      user has the email, whatever the project; then with 'Project not
      found'; then with AlreadyMember exactly when the user has an entry.
      On success exactly one entry {user, 'member', false} is appended,
      every existing entry keeps its place and value, and no other project
      changes; a well-formed store stays well formed. */
  lemma AddMemberOutcome(users: Collection<User>, projects: Collection<Project>, email: string, projectId: Id)
    requires UniqueIds(projects)
    ensures AddMember(users, projects, email, projectId) == Failure(NoUserWithEmail) <==>
              UserService.GetUserByEmail(users, email).None?
    ensures UserService.GetUserByEmail(users, email).Some? && GetProjectById(projects, projectId).Failure? ==>
              AddMember(users, projects, email, projectId) == Failure(ProjectNotFound)
    ensures (AddMember(users, projects, email, projectId).Failure? &&
             AddMember(users, projects, email, projectId).error.AlreadyMember?) <==>
              (UserService.GetUserByEmail(users, email).Some? && GetProjectById(projects, projectId).Success? &&
               HasMember(GetProjectById(projects, projectId).value.val.members,
                         UserService.GetUserByEmail(users, email).value.id))
    ensures UserService.GetUserByEmail(users, email).Some? && GetProjectById(projects, projectId).Success? &&
            !HasMember(GetProjectById(projects, projectId).value.val.members,
                       UserService.GetUserByEmail(users, email).value.id) ==>
              AddMember(users, projects, email, projectId).Success?
    ensures AddMember(users, projects, email, projectId).Success? ==>
              var user := UserService.GetUserByEmail(users, email).value.id;
              var members := GetProjectById(projects, projectId).value.val.members;
              var after := AddMember(users, projects, email, projectId).value;
              && UniqueIds(after)
              && GetAllMembers(after, projectId) == Success(members + [Member(user, MEMBER, false)])
              && (forall k :: k != projectId ==> FindById(after, k) == FindById(projects, k))
              && (AllWellFormed(projects) ==> AllWellFormed(after))
  {
    if AddMember(users, projects, email, projectId).Success? {
      var u := UserService.GetUserByEmail(users, email).value;
      var d := FindById(projects, projectId).value;
      var p' := d.val.(members := d.val.members + [NewMember(u.id)]);
      ReplaceKeepsOthers(projects, projectId, p');
      ReplaceFind(projects, projectId, p', projectId);
      if AllWellFormed(projects) {
        FindByIdUnique(projects, projectId, d);
        AppendKeepsWellFormed(d.val.members, u.id);
        ReplaceKeepsWellFormed(projects, projectId, p');
      }
    }
  }

  /** addMember never creates a duplicate entry: after it succeeds, adding
      the same email again fails with AlreadyMember. */
  lemma AddMemberRepeated(users: Collection<User>, projects: Collection<Project>, email: string, projectId: Id)
    requires UniqueIds(projects) && AddMember(users, projects, email, projectId).Success?
    ensures AddMember(users, AddMember(users, projects, email, projectId).value, email, projectId) ==
              Failure(AlreadyMember(UserService.GetUserByEmail(users, email).value.val.username))
  {
    AddMemberOutcome(users, projects, email, projectId);
    var u := UserService.GetUserByEmail(users, email).value;
    var after := AddMember(users, projects, email, projectId).value;
    var members := GetAllMembers(after, projectId).value;
    assert members[|members| - 1].user == u.id;
  }

  /** sendReminder fails exactly when the recipient does not resolve;
      otherwise the recipient's reminders gain one entry at the end, its
      other fields and every other user are as before. */
  lemma SendReminderOutcome(users: Collection<User>, memberId: Id, senderId: Id, projectId: Id, message: string)
    requires UniqueIds(users)
    ensures SendReminder(users, memberId, senderId, projectId, message).Failure? <==>
              UserService.GetUserById(users, memberId).None?
    ensures SendReminder(users, memberId, senderId, projectId, message).Failure? ==>
              SendReminder(users, memberId, senderId, projectId, message).error == ReminderNotSent
    ensures SendReminder(users, memberId, senderId, projectId, message).Success? ==>
              var u := UserService.GetUserById(users, memberId).value.val;
              var after := SendReminder(users, memberId, senderId, projectId, message).value;
              && UniqueIds(after)
              && UserService.GetReminders(after, memberId) ==
                   Success(u.reminders + [Reminder(projectId, senderId, message)])
              && UserService.GetUserById(after, memberId).value.val.username == u.username
              && UserService.GetUserById(after, memberId).value.val.email == u.email
              && (forall k :: k != memberId ==> FindById(after, k) == FindById(users, k))
  {
    if FindById(users, memberId).Some? {
      var u := FindById(users, memberId).value.val;
      var u' := u.(reminders := u.reminders + [Reminder(projectId, senderId, message)]);
      ReplaceKeepsOthers(users, memberId, u');
      ReplaceFind(users, memberId, u', memberId);
    }
  }
}
