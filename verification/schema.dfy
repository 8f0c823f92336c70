/**
 * The seven tables of the job-listing database (users, user_sessions, jobs, applications,
 * notifications, resumes, contact_messages) as row datatypes, and the result types that
 * stand in for `null` and for `SQLException`.
 *
 * Timestamps (`created_at`, `applied_at`, `login_time`, ...) are readings of a logical clock
 * that the store advances on every write, so "later" means "written later".
 */
module Schema {

  datatype Option<T> = None | Some(value: T)

  /** Why a store call raised `SQLException`. */
  datatype StoreError =
    | CannotDeleteAdmin   // deleteUser on a username equal to "admin" ignoring case
    | UsernameTaken       // INSERT violating `users.username UNIQUE`
    | StoreFailure        // the database itself failed (connection, I/O)

  datatype Outcome<T> = Ok(value: T) | Err(error: StoreError)

  /**
   * Where a two-statement write (insert a row, then notify the admin) is interrupted
   * by a database failure; chosen by the environment, not by the program.
   */
  datatype Fault = NoFault | InsertFails | NotifyFails

  const AdminName: string := "admin"
  const AdminRole: string := "Admin"
  const CustomerRole: string := "Customer"
  const SeedPassword: string := "admin123"
  const StatusPending: string := "Pending"
  const StatusNew: string := "New"
  const ContactSubject: string := "Contact Us"

  datatype User = User(id: int, username: string, password: string, email: Option<string>, role: string)

  datatype UserSession = UserSession(id: int, username: string, loginTime: int, logoutTime: Option<int>, isActive: bool)

  datatype Job = Job(id: int, title: string, company: string, location: string, salary: string,
                     description: string, createdAt: int)

  datatype Application = Application(id: int, username: string, jobTitle: string, company: string,
                                     applicantName: string, email: string, phone: string,
                                     coverLetter: string, status: string, appliedAt: int)

  datatype Notification = Notification(id: int, username: string, jobTitle: string, message: string,
                                       status: string, isRead: bool, createdAt: int)

  /** The eight columns `getResume` returns, in its order. */
  datatype ResumeFields = ResumeFields(fullName: string, email: string, phone: string, address: string,
                                       education: string, experience: string, skills: string, summary: string)

  datatype Resume = Resume(id: int, username: string, fields: ResumeFields, updatedAt: int)

  datatype ContactMessage = ContactMessage(id: int, username: string, subject: string, message: string,
                                           email: string, phone: string, status: string, isRead: bool,
                                           adminResponse: Option<string>, createdAt: int)

  // Column accessors, passed to the generic table lemmas.
  function UserId(r: User): int { r.id }
  function UserName(r: User): string { r.username }
  function SessionId(r: UserSession): int { r.id }
  function SessionOwner(r: UserSession): string { r.username }
  function SessionLogin(r: UserSession): int { r.loginTime }
  function JobId(r: Job): int { r.id }
  function ApplicationId(r: Application): int { r.id }
  function ApplicationOwner(r: Application): string { r.username }
  function ApplicationStamp(r: Application): int { r.appliedAt }
  function NotificationId(r: Notification): int { r.id }
  function NotificationOwner(r: Notification): string { r.username }
  function NotificationStamp(r: Notification): int { r.createdAt }
  function ResumeId(r: Resume): int { r.id }
  function ResumeOwner(r: Resume): string { r.username }
  function ContactId(r: ContactMessage): int { r.id }
  function ContactOwner(r: ContactMessage): string { r.username }
  function ContactStamp(r: ContactMessage): int { r.createdAt }
}
