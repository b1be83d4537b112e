/** Outcomes of the service calls: an optional document (a query that may
    return null) and a result that is either a value or the error the
    service throws. */
module Results {

  datatype Option<+T> = None | Some(value: T)

  /** The errors the services raise, one constructor per distinct failure. */
  datatype Error =
    | ProjectNotFound          // getprojectById: 'Project not found'
    | ProjectNotUpdated        // updateProject: 'Project could not be updated'
    | NoUserWithEmail          // addMember: 'No user found with that email'
    | AlreadyMember(username: string)  // addMember: '<username> is already a member of this project'
    | NotAMember               // addAdmin: findIndex gave -1 and members[-1] is undefined
    | ReminderNotSent          // sendReminder: 'An error occured while sending reminder'
    | TaskNotFound             // updateTask: populateTask reads _id of a null task
    | UserNotFound             // getReminders: reads reminders of a null user

  datatype Result<+T> = Success(value: T) | Failure(error: Error)
}
