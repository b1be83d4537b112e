/** The documents of the three collections the services read and write,
    with the field names the services use. */
module Entities {
  import opened Results
  import opened Documents

  /** The two roles the services assign or query. */
  const ADMIN: string := "admin"
  const MEMBER: string := "member"

  /** The task status getProgress counts, and the schema default. */
  const COMPLETED: string := "Completed"
  const TODO: string := "To-do"

  /** One entry of a project's member list: a user reference, a role and
      the owner flag. */
  datatype Member = Member(user: Id, role: string, owner: bool)

  /** The tests the services apply to one entry: it is the user's, it has
      the role, or both. */
  function IsUser(user: Id): Member -> bool
  {
    (m: Member) => m.user == user
  }

  function HasRole(role: string): Member -> bool
  {
    (m: Member) => role == m.role
  }

  function IsUserWithRole(user: Id, role: string): Member -> bool
  {
    (m: Member) => user == m.user && role == m.role
  }

  datatype Project = Project(
    name: string,
    client: string,
    description: string,
    deadline: int,
    members: seq<Member>)

  /** A reminder embedded in the recipient's user document. */
  datatype Reminder = Reminder(project: Id, sender: Id, message: string)

  datatype User = User(username: string, email: string, reminders: seq<Reminder>)

  datatype Task = Task(
    project: Id,
    member: Id,
    assignedBy: Id,
    description: string,
    status: string,
    urgent: bool)

  /** An update record: a field that is None is absent (undefined) and is
      left as it is. */
  function Overwrite<T>(current: T, given: Option<T>): T
  {
    match given
    case None => current
    case Some(v) => v
  }
}
