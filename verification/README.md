# Job listing application: store and screen decisions, modelled in Dafny

The application is a desktop job board. Customers sign up, keep a resume, apply for jobs and
write to the administrator through a contact form. The administrator adds and deletes jobs,
approves or rejects applications, answers contact messages and manages user accounts.
Everything is kept in an embedded SQL database that has seven tables: users, user_sessions,
jobs, applications, notifications, resumes and contact_messages.

The model has two layers.

- **The store** (`DatabaseManager`) is the class `Database.Store`. It holds one sequence of rows
  per table, a next-id counter per table, and a logical `clock` that stands for
  `CURRENT_TIMESTAMP`: every insert takes the current clock value and then advances it, so
  `ORDER BY created_at DESC` is reverse insertion order. `Valid()` collects the table
  invariants:
  - ids increase and stay below their counters;
  - usernames are unique in users and in resumes;
  - each user has at most one active session.

  Every writer keeps `Valid()` and states its new tables. The SQL of each reader is a function
  in `Queries`. A database failure that the program cannot cause is a `Fault` parameter, and
  only where the source's behaviour depends on where the failure happens.
- **The screens** (`DialogManager`, `ContactUsFrame`, `JoblistingApp`, `JoblistFrame`). The
  decisions behind their buttons are functions. The windows whose fields and table models
  change become classes:
  - `ApplicationsDialog`, `ContactInbox`, `UserManagement`;
  - `ContactUsFrame`, `App`, `JobListFrame`.

  A selected table row is a model index, or -1 when nothing is selected. A confirmation dialog's
  answer is a parameter.

Modules:
- `JavaText` holds `trim`, ASCII `toLowerCase`/`equalsIgnoreCase` and `String.replace`.
- `Schema` holds the row types.
- `Tables` holds generic filter, delete and reverse operations with their lemmas.
- `Queries` holds one function per SQL statement.
- `Database` holds the `Store`.
- `Dialogs`, `ContactForm`, `Auth` and `JobList` hold the screens.

## Model

| member | source | states |
|---|---|---|
| JavaText.Trim | ContactUsFrame.java:152-155 | `String.trim()`: the result is empty exactly when every char is at most U+0020; otherwise its first and last chars are above U+0020 |
| JavaText.TrimSlice | ContactUsFrame.java:152-155 | `trim()` returns the slice of the input between a leading and a trailing run of chars at most U+0020 |
| JavaText.TrimIdempotent | DialogManager.java:716-724 | trimming an already trimmed value changes nothing |
| JavaText.ToLower | DialogManager.java:160 | `toLowerCase` keeps the length |
| JavaText.ReplaceCharGone | DialogManager.java:1342 | after replacing a one-char pattern by a text without that char, the char no longer occurs |
| JavaText.ReplaceCharKeeps | DialogManager.java:1342 | replacing one char by another keeps every other char present |
| JavaText.ReplaceAbsent | DialogManager.java:1337-1339 | `replace` of a pattern whose first char does not occur returns the text unchanged |
| Queries.AdminNameIgnoringCase | DatabaseManager.java:216 | under ASCII case folding, `LOWER(username) = 'admin'` and `"admin".equalsIgnoreCase(username)` pick out the same names |
| Queries.MatchingRole | DatabaseManager.java:328-343 | validateLogin's lookup is null exactly when no row matches both username and password exactly; otherwise it is the role of a matching row |
| Queries.MatchingRoleOfUser | DatabaseManager.java:328-343 | with unique usernames, a user's own name and password give that user's stored role |
| Queries.AdminSurvivesDelete | DatabaseManager.java:214-263 | deleting by id behind the name guard never removes an account named "admin" (any case) when the id belongs to the guarded name |
| Queries.BulkDeleteOutcome | DatabaseManager.java:265-326 | the bulk delete removes exactly as many user rows as it counts; every remaining user is "admin" ignoring case or failed to delete |
| Queries.SeedEmpty | DatabaseManager.java:148-155 | on an empty users table, the seed MERGE leaves exactly the admin account |
| Queries.SeedAdminPresent | DatabaseManager.java:148-155 | after the MERGE an "admin"/"admin123"/"Admin" row exists, usernames stay unique, and no other user changes |
| Queries.ResetAdminEffect | DatabaseManager.java:148-155 | the MERGE update branch resets the existing admin's password and role and leaves other users alone |
| Queries.SeedAppended | DatabaseManager.java:148-155 | the MERGE insert branch keeps usernames unique and leaves other users alone |
| Queries.WithoutKeepsOneActive | DatabaseManager.java:223-227 | deleting the sessions of some users keeps at most one active session per user |
| Queries.LoginLeavesOneActive | DatabaseManager.java:345-359 | after recordLogin(u) the only active session of u is the new row; other users' sessions are unchanged |
| Queries.LoginKeepsOneActive | DatabaseManager.java:345-359 | recordLogin keeps "at most one active session per user" |
| Queries.LogoutLeavesNoneActive | DatabaseManager.java:361-368 | after recordLogout(u) no session of u is active and each one it closed carries the logout time; other users are untouched and the invariant holds |
| Queries.ActiveCountIsActiveRows | DatabaseManager.java:880-888 | `COUNT(DISTINCT username)` over active sessions equals the number of active rows while the invariant holds |
| Queries.LatestLogin | DatabaseManager.java:821 | `MAX(login_time)` is absent only for a user with no sessions, and is the largest login time otherwise |
| Queries.LatestLogout | DatabaseManager.java:822 | `MAX(logout_time)` skips NULLs: absent when no session was closed, otherwise the latest logout |
| Queries.SummaryStatus | DatabaseManager.java:813-857 | a user is "Online" iff one of their sessions is active, and "Never" logged in iff they have no session |
| Queries.InsertByName | DatabaseManager.java:826 | one sorting step adds exactly the one row |
| Queries.InsertKeepsSorted | DatabaseManager.java:826 | inserting into a list sorted by username keeps it sorted |
| Queries.SortByName | DatabaseManager.java:826 | `ORDER BY u.username` yields a permutation of the rows sorted by name (compared by Unicode scalar value) |
| Queries.UserListingComplete | DatabaseManager.java:813-857 | getAllUsersWithSessions has one row per user, sorted by username, each summarising that user's sessions |
| Queries.UpdateJobRow | DatabaseManager.java:409-421 | updateJob keeps the number of rows and every id |
| Queries.UpdateJobEffect | DatabaseManager.java:409-421 | updateJob rewrites the five columns of the row with that id, and only that row; the id exists afterwards iff it existed before |
| Queries.UserApplicationsNewestFirst | DatabaseManager.java:467-488 | getUserApplications lists each of the user's applications once, newest first |
| Queries.MarkAllReadEffect | DatabaseManager.java:601-608 | after markAllNotificationsAsRead(u) the unread count of u (getUnreadNotificationCount) is 0; a second call changes nothing; other users' notifications are unchanged |
| Queries.NotificationListings | DatabaseManager.java:537-578 | both notification lists are newest first; the unread list holds exactly the user's unread rows |
| Queries.FindResume | DatabaseManager.java:662-684 | getResume is null exactly when the user has no resume, and otherwise returns the fields of one of the user's rows |
| Queries.UpsertThenFind | DatabaseManager.java:612-684 | after saveOrUpdateResume(u, f), getResume(u) is exactly f, other users read as before, and there is still at most one resume per user |
| Queries.RewriteThenFind | DatabaseManager.java:627-640 | the UPDATE branch makes getResume return the new fields |
| Queries.RewriteKeepsOthers | DatabaseManager.java:627-640 | the UPDATE branch leaves other users' resumes as they read before |
| Queries.FindAppended | DatabaseManager.java:645-657 | the INSERT branch makes the new row the one getResume finds and hides no other user |
| Queries.ContactIdIsKey | DatabaseManager.java:128-129 | `id ... PRIMARY KEY`: with ascending ids, a message's id finds that very message |
| Queries.SetApplicationStatusEffect | DatabaseManager.java:514-522 | updateApplicationStatus changes only the status of the rows with that id, and is idempotent |
| Queries.MarkReadEffect | DatabaseManager.java:592-599 | markNotificationAsRead sets only the read flag of the rows with that id, is idempotent, and never raises a user's unread count |
| Queries.MarkContactReadEffect | DatabaseManager.java:775-782 | markContactMessageAsRead sets only the read flag of the rows with that id, and is idempotent |
| Queries.FindContact | DatabaseManager.java:788-796 | the lookup of a message by id is empty iff no row has that id, and otherwise returns a row with that id |
| Queries.RespondEffect | DatabaseManager.java:784-809 | the UPDATE sets status, response and is_read together on the rows with that id, and changes no other column or row |
| Queries.ContactListings | DatabaseManager.java:719-764 | the admin and user contact lists are newest first, and the user list has one entry per message of that user |
| Database.PurgeAllNothing | DatabaseManager.java:265-326 | a bulk delete that chose no names changes no table |
| Database.PurgeAllUnion | DatabaseManager.java:274-313 | deleting one more user's rows after a set of users equals deleting the union |
| Database.PurgeAllOk | DatabaseManager.java:214-326 | deleting every row of some usernames from the six tables keeps all table invariants |
| Database.PurgeTargets | DatabaseManager.java:265-326 | the loop over non-admin users deletes the chosen users' rows from the six tables and counts them |
| Database.Store.constructor | DatabaseManager.java:55-161 | a fresh database holds only the seeded admin account and empty tables |
| Database.Store.SeedAdmin | DatabaseManager.java:148-155 | the MERGE leaves an "admin" row with the seed password and role |
| Database.Store.UserExists | DatabaseManager.java:191-200 | true iff a row has that username |
| Database.Store.AddUser | DatabaseManager.java:202-212 | a new name is inserted with the next id; a taken name fails on the UNIQUE column and changes nothing |
| Database.Store.DeleteUser | DatabaseManager.java:214-263 | "admin" in any case fails and changes no table; otherwise the name's rows go from five tables and the row with the id from users; the result says whether that row existed |
| Database.Store.DeleteAllUsersExceptAdmin | DatabaseManager.java:265-326 | removes every non-admin user that did not fail, with all their rows, and returns how many; only admin-named or failed users remain |
| Database.Store.RecordLogin | DatabaseManager.java:345-359 | the user's active sessions are closed and one new active session is added; other users are untouched |
| Database.Store.RecordLogout | DatabaseManager.java:361-368 | every active session of the user is closed at the current time; other users are untouched |
| Database.Store.ValidateLogin | DatabaseManager.java:328-343 | returns the matching row's role and records a session only on a match; otherwise returns null and changes nothing, not even the session counter or the clock |
| Database.Store.GetActiveUserCount | DatabaseManager.java:880-888 | the count equals the number of active session rows |
| Database.Store.GetAllUsersWithSessions | DatabaseManager.java:813-857 | one summary per user, sorted by username |
| Database.Store.AddJob | DatabaseManager.java:391-407 | appends the job with a fresh id, which it returns; the id counter and the clock advance by one |
| Database.Store.AddSampleJobs | DatabaseManager.java:163-187 | only an empty jobs table gets the five sample jobs, in order |
| Database.Store.GetAllJobs | DatabaseManager.java:372-389 | the jobs newest id first, the same set of rows |
| Database.Store.UpdateJob | DatabaseManager.java:409-421 | rewrites the row with that id; true iff it existed |
| Database.Store.DeleteJob | DatabaseManager.java:423-429 | removes the row with that id; true iff it existed |
| Database.Store.AddNotification | DatabaseManager.java:580-590 | appends one unread notification |
| Database.Store.AddApplication | DatabaseManager.java:490-512 | inserts one "Pending" row; only when the insert succeeded is exactly one "Pending" notification for "admin" appended; a failure is reported as an error |
| Database.Store.UpdateApplicationStatus | DatabaseManager.java:514-522 | sets the status of the row with that id; true iff it existed |
| Database.Store.GetPendingApplicationCount | DatabaseManager.java:433-440 | the number of distinct "Pending" application rows |
| Database.Store.GetAllApplications | DatabaseManager.java:442-465 | all applications, newest first |
| Database.Store.GetUserApplications | DatabaseManager.java:467-488 | the user's applications, newest first |
| Database.Store.GetUnreadNotificationCount | DatabaseManager.java:526-535 | the number of the user's unread notifications |
| Database.Store.GetUnreadNotifications | DatabaseManager.java:537-556 | exactly the user's unread notifications, newest first |
| Database.Store.GetAllNotifications | DatabaseManager.java:558-578 | the user's notifications, newest first |
| Database.Store.MarkNotificationAsRead | DatabaseManager.java:592-599 | marks the row with that id read; true iff it existed |
| Database.Store.MarkAllNotificationsAsRead | DatabaseManager.java:601-608 | marks all of the user's rows read, so the unread count is 0; true iff the user had any |
| Database.Store.SaveOrUpdateResume | DatabaseManager.java:612-660 | updates the user's resume in place or inserts one; getResume then returns exactly the saved fields |
| Database.Store.GetResume | DatabaseManager.java:662-684 | the user's resume fields, or null when there is none |
| Database.Store.ResumeExists | DatabaseManager.java:686-695 | true iff getResume finds a row |
| Database.Store.AddContactMessage | DatabaseManager.java:699-717 | inserts one "New", unread message; only after the insert is exactly one "New" notification for "admin" appended |
| Database.Store.GetAllContactMessages | DatabaseManager.java:719-742 | all messages, newest first |
| Database.Store.GetUserContactMessages | DatabaseManager.java:744-764 | the user's messages, newest first |
| Database.Store.GetUnreadContactMessageCount | DatabaseManager.java:766-773 | the number of distinct unread contact messages |
| Database.Store.MarkContactMessageAsRead | DatabaseManager.java:775-782 | marks the message read; true iff it existed |
| Database.Store.UpdateContactMessageStatus | DatabaseManager.java:784-809 | sets status, response and read together; true iff the id existed; notifies the author with the same status exactly when a row matched and the response is not blank |
| Database.RespondKeepsAuthor | DatabaseManager.java:788-796 | updating a message does not change whom it belongs to or its subject |
| JavaText.TrimEnd | ContactUsFrame.java:152-155 | the trailing half of `trim()`: a prefix of the input, with only chars up to U+0020 removed and a last char above U+0020 |
| Queries.ResetAdmin | DatabaseManager.java:148-155 | the MERGE update keeps every row's id and username |
| Queries.Deactivate | DatabaseManager.java:347-351 | the UPDATE that deactivates a user's sessions keeps every row |
| Queries.CloseSessions | DatabaseManager.java:362-366 | the logout UPDATE keeps every row |
| Queries.SetApplicationStatus | DatabaseManager.java:515-519 | the status UPDATE keeps every row |
| Queries.MarkRead | DatabaseManager.java:593-597 | marking one notification read keeps every row |
| Queries.MarkAllRead | DatabaseManager.java:602-606 | marking a user's notifications read keeps every row |
| Queries.RewriteResumes | DatabaseManager.java:627-640 | the resume UPDATE keeps every row and every owner |
| Queries.MarkContactRead | DatabaseManager.java:776-780 | marking a message read keeps every row |
| Queries.RespondToContact | DatabaseManager.java:785-791 | the response UPDATE keeps every row |
| Database.Store.DeleteSessionsOf | DatabaseManager.java:222-227 | removes exactly the user's sessions and keeps the store valid |
| Database.Store.DeleteApplicationsOf | DatabaseManager.java:229-234 | removes exactly the user's applications and keeps the store valid |
| Database.Store.DeleteNotificationsOf | DatabaseManager.java:236-241 | removes exactly the user's notifications and keeps the store valid |
| Database.Store.DeleteResumesOf | DatabaseManager.java:243-248 | removes exactly the user's resume and keeps the store valid |
| Database.Store.DeleteContactsOf | DatabaseManager.java:250-255 | removes exactly the user's contact messages and keeps the store valid |
| Database.Store.PurgeDependents | DatabaseManager.java:222-255 | the five dependent deletes together |
| Database.Store.DeleteUserRow | DatabaseManager.java:257-262 | removes the row with that id; the result is true iff one existed |
| Database.Store.StoreTables | DatabaseManager.java:274-313 | writes back the six tables of a bulk delete, and the store stays valid |
| Database.Store.InsertApplication | DatabaseManager.java:492-503 | appends the application with the next id and the current time |
| Database.Store.UpdateResumeRows | DatabaseManager.java:626-640 | rewrites the user's resume fields and its update time |
| Database.Store.InsertResume | DatabaseManager.java:644-657 | appends a resume for a user who had none |
| Database.Store.InsertContact | DatabaseManager.java:700-709 | appends the message with the next id and the current time |
| Database.Store.NotifyAuthor | DatabaseManager.java:794-806 | when told to notify, appends one notice to the message's author with the message's subject; otherwise no notice |
| Database.PurgeNext | DatabaseManager.java:273-320 | one pass of the loop: the target's rows go and the count grows, unless its deletion fails |
| Database.Store.RespondInPlace | DatabaseManager.java:785-791 | the response UPDATE alone; true iff the id existed |
| Dialogs.StripsLeadingIcon | DialogManager.java:1337-1339 | an icon prefix in front of a value is removed |
| Dialogs.StripIcons | DialogManager.java:1336-1339 | the five chained `replace` calls that drop the icon prefixes; StripsLeadingIcon, StripIconsPlain and IconCanSurvive state what they remove and what they can leave |
| Dialogs.CleanCsv | DialogManager.java:1336-1342 | icons dropped, then every ',' turned into ';', so the cleaned text holds no comma |
| Dialogs.StripIconsPlain | DialogManager.java:1337-1339 | a value with no icon char is unchanged |
| Dialogs.IconCanSurvive | DialogManager.java:1337-1339 | "🟢🟢  " comes out as "🟢 ": one pass of `replace` can leave an icon |
| Dialogs.EscapeCsvNoComma | DialogManager.java:1342 | no escaped cell contains a comma |
| Dialogs.EscapeCsvRoundTrip | DialogManager.java:1333-1356 | a CSV reader gets back "" for null and the cleaned text otherwise, so quoting and quote doubling lose nothing |
| Dialogs.EscapeCsvPlain | DialogManager.java:1345-1355 | a non-blank value without icons, ',', ';', quotes or line breaks is returned unchanged |
| Dialogs.EscapeCsv | DialogManager.java:1333-1356 | escapeCSV as written, null included; EscapeCsvNoComma, EscapeCsvRoundTrip and EscapeCsvPlain state its properties |
| Dialogs.ReadCsvField | DialogManager.java:1344-1353 | how a CSV reader takes back the quoting escapeCSV applies (outer quotes dropped, `""` undoubled); EscapeCsvRoundTrip uses it |
| Dialogs.StatusNotice | DialogManager.java:160-167 | the text sent to the applicant, with the status lower-cased; ReviewNotices gives the two texts the review buttons produce |
| Dialogs.ReviewNotices | DialogManager.java:155-167 | approving and rejecting send "...has been approved." and "...has been rejected." |
| Dialogs.SetStatusKeepsRow | DialogManager.java:155-160 | after a status update the reviewed row is in the table with the new status |
| Dialogs.ApplicationsDialog.constructor | DialogManager.java:142-153 | the table shows all applications, newest first |
| Dialogs.ApplicationsDialog.Review | DialogManager.java:95-167 | the approve and reject buttons: with a selected row, the status is updated; only if the row existed are the table cell set and exactly one notification with the new status sent to the applicant |
| Dialogs.SavedResumeFilled | DialogManager.java:715-724 | a resume the Save button accepts reads back as filled |
| Dialogs.LoadedResumeFilled | DialogManager.java:686-698 | the resume dialog's `resumeFilled`: a resume row whose untrimmed full name and email are non-empty; SavedResumeFilled and CompleteResumeIsFilled relate it to the other tests |
| Dialogs.TrimFields | DialogManager.java:716-724 | every form field trimmed, as Save passes them to saveOrUpdateResume; SavedResumeFilled and SavedResumePassesGate state what a saved resume then passes |
| Dialogs.SaveResume | DialogManager.java:715-732 | saving requires non-blank name and email and stores every field trimmed; getResume then returns them |
| Dialogs.SubmitApplication | DialogManager.java:372-391 | addApplication is called only with non-blank name and email, with trimmed values; success iff no store failure, and on success the admin gets exactly one "New application" notice |
| Dialogs.TrimmedResponseIsReal | DialogManager.java:927-933 | a response the dialog accepts is one the store notifies about |
| Dialogs.ResolveMessage | DialogManager.java:921-933 | a blank response changes nothing; otherwise the message is resolved with the trimmed response |
| Dialogs.ContactInbox.constructor | DialogManager.java:813-828 | the inbox shows all messages, newest first |
| Dialogs.IndexOfId | DialogManager.java:884-899 | the search stops at the first message with the id, and runs to the end exactly when no message has it |
| Dialogs.FoundInListing | DialogManager.java:884-899 | with ascending ids, the message the listener finds in getAllContactMessages is the one FindContact finds, and none is found iff no message has the id |
| Dialogs.ContactInbox.Select | DialogManager.java:879-906 | selecting a row whose message still exists shows its text and its stored response (empty when blank), and marks it read; otherwise nothing changes |
| Dialogs.ContactInbox.Open | DialogManager.java:889-898 | shows the message text and its stored response, and marks it read |
| Dialogs.ContactInbox.Respond | DialogManager.java:916-944 | needs a selection and a non-blank response; on success clears the response and reloads the table |
| Dialogs.DialogGuardWithinStoreGuard | DialogManager.java:1185-1188 | whatever the dialog blocks, the store blocks too |
| Dialogs.DialogPassesOtherRoles | DialogManager.java:1185-1188 | a user named "ADMIN" with role "Customer" passes the dialog but is refused by the store |
| Dialogs.UserManagement.constructor | DialogManager.java:1089-1106 | the table shows getAllUsersWithSessions |
| Dialogs.UserManagement.DeleteSelectedUser | DialogManager.java:1173-1234 | needs a selection, the dialog guard and a confirmation; an "admin" name is never deleted; a delete removes the name's rows from all six tables; the table is reloaded only on success |
| ContactForm.ValidateContactReportsFirstFailure | ContactUsFrame.java:158-187 | the warning shown is the first failing check in the order subject, email, email format, message, length |
| ContactForm.ValidateContactAccepts | ContactUsFrame.java:158-187 | the message is sent iff no check fails |
| ContactForm.ValidateContact | ContactUsFrame.java:151-187 | sendMessage's validation of the trimmed values; ValidateContactReportsFirstFailure and ValidateContactAccepts state which warning is shown and when the message is sent |
| ContactForm.WeakEmailAccepted | ContactUsFrame.java:171-175 | ".@" passes the email check |
| ContactForm.MessageLineReadsBack | ContactUsFrame.java:257-258 | a line starts with 🆕 iff the status is "New", and the status and subject can be read back from their positions |
| ContactForm.MessageLine | ContactUsFrame.java:257-258 | the `String.format` line for one message; MessageLineReadsBack states where icon, status and subject sit |
| ContactForm.MessageLines | ContactUsFrame.java:252-260 | one line per message, in order, each formatted from that message |
| ContactForm.ContactUsFrame.constructor | ContactUsFrame.java:22-34 | the form starts empty |
| ContactForm.ContactUsFrame.SendMessage | ContactUsFrame.java:151-204 | the first failed check is reported and nothing is stored; otherwise addContactMessage gets the trimmed values; on success the admin gets exactly one "New contact message" notice; the form is cleared iff the message was sent |
| ContactForm.ContactUsFrame.Post | ContactUsFrame.java:189-203 | the store write; on success the admin gets exactly one "New contact message" notice and the form is cleared, and on failure the form is kept |
| ContactForm.ContactUsFrame.ShowUserMessages | ContactUsFrame.java:206-260 | "no messages yet" iff the user sent none; otherwise one line per message, newest first |
| JobList.Footer | JoblistFrame.java:215-252 | add, delete and export appear together and only for "Admin"; "Apply with Resume" appears exactly for everyone else |
| JobList.FooterForRoles | JoblistFrame.java:221-249 | the buttons seen by the admin, a customer, nobody and a role spelt "admin" |
| JobList.ApplyWithResumeOpens | JoblistFrame.java:534-566 | the apply dialog opens iff a row is selected and the resume is complete, with that row's title and company; no selection only warns |
| JobList.ResumeComplete | JoblistFrame.java:534-566 | applyWithResume's test that the trimmed full name and email of getResume are non-empty; CompleteResumeIsFilled and FilledResumeMayBeIncomplete compare it with the resume dialog's test |
| JobList.ApplyWithResume | JoblistFrame.java:534-566 | the step "Apply with Resume" takes for the selected row and the user's resume; ApplyWithResumeOpens states when the apply dialog opens |
| JobList.JobFormComplete | JoblistFrame.java:644-654 | the add-job form's test that no trimmed field is empty; JobListFrame.AddJob states that addJob is called exactly when it holds |
| JobList.CompleteResumeIsFilled | JoblistFrame.java:547-549 | a resume this gate accepts also counts as filled in the resume dialog |
| JobList.FilledResumeMayBeIncomplete | DialogManager.java:698 | the resume dialog counts a full name of spaces as filled, this gate does not |
| JobList.SavedResumePassesGate | JoblistFrame.java:547-549 | a resume saved by the resume dialog passes this gate |
| JobList.WithoutJobAt | DatabaseManager.java:423-429 | with ascending ids, deleting the id of a row removes exactly that row |
| JobList.RemoveRowAgrees | JoblistFrame.java:283-287 | removing the selected table row and reloading getAllJobs give the same table |
| JobList.JobListFrame.constructor | JoblistFrame.java:38-56 | the table shows getAllJobs and the add-job form is empty |
| JobList.JobListFrame.ApplyWithResumeStep | JoblistFrame.java:534-566 | the step follows the user's current resume |
| JobList.JobListFrame.AddJob | JoblistFrame.java:642-674 | addJob is called iff no trimmed field is empty, with the trimmed values; the new job is last in the table, first in the reloaded list, and the form is cleared |
| JobList.JobListFrame.PostJob | JoblistFrame.java:657-665 | the store insert, clearing the form and reloading the table |
| JobList.JobListFrame.DeleteSelectedJob | JoblistFrame.java:271-297 | deletes only with a selection and a confirmation; the table changes only if deleteJob reported a row |
| Auth.TestAccountRole | JoblistingApp.java:332-339 | only admin/admin and user/user are test accounts, giving "Admin" and "Customer" |
| Auth.TestAccountsSignIn | JoblistingApp.java:330-339 | the test accounts sign in whatever the database holds |
| Auth.SignInByStore | JoblistingApp.java:341-355 | past the test accounts and connected, sign-in succeeds iff a row has that username and password, with that row's role |
| Auth.SignInDecision | JoblistingApp.java:330-356 | sign-in on the trimmed username (the empty-field check is at lines 176-179): a signed-in user typed both fields and gets a test account's role or the role of a row with those credentials; TestAccountsSignIn, SignInByStore and OfflineOnlyTestAccounts state the rest |
| Auth.OfflineOnlyTestAccounts | JoblistingApp.java:343-351 | without a connection only the test accounts sign in |
| Auth.SeededAdminSignsIn | JoblistingApp.java:332-335 | the seeded admin signs in with "admin123" through the database and with "admin" without it |
| Auth.SignUpThenSignIn | JoblistingApp.java:317-328 | an account created by sign-up signs in with the same name and password as a customer |
| Auth.SignUpDecision | JoblistingApp.java:267-281 | the sign-up checks in order: all three fields, equal passwords, then (in `signup`, lines 317-328) a free username; SignUpThenSignIn states what a created account can then do |
| Auth.App.constructor | JoblistingApp.java:43-56 | nobody is signed in |
| Auth.App.SignIn | JoblistingApp.java:330-356 | the result follows the sign-in decision; a session is recorded only through validateLogin; a sign-in that does not reach a successful validateLogin leaves the sessions, the session counter and the clock as they were; a failed attempt leaves the window as it was |
| Auth.App.SignUp | JoblistingApp.java:317-328 | the result follows the sign-up decision; only a created account adds a "Customer" row |
| Auth.App.SignOut | JoblistingApp.java:446 | the user and role are cleared; the database is not touched |

## Left out

- Swing layout, rendering, colours, keyboard and mouse wiring, and the success, warning and error pop-ups. A pop-up is an enum constructor of the member's result.
- JDBC plumbing: connecting, the singleton, the email-column migration, and `isConnected`. The connection state is the `connected` parameter of `Auth.App.SignIn`.
- Database failures caused by I/O. They are modelled by the `Fault` parameter only where the source behaves differently depending on where they happen: addApplication, addContactMessage, and bulk delete. Everywhere else a call is assumed to succeed.
- Real timestamps and date formatting. Times are values of the logical clock, and `ShowUserMessages` takes the date formatter as a parameter.
- The column projections of the table models: which array index is shown in which column.
- ORDER BY ties between equal timestamps. The clock makes every timestamp distinct.
- The regex row filter of the job tables: a foreign regex engine.
- CSV file writing. Only the cell escaping is modelled.
- The rest of the screens:
  - job details dialogs;
  - statistics panels;
  - the customer notification pop-up;
  - the inline admin form of the main window;
  - clearing the sign-up form.
- `getActiveUsers`: it has no caller.
- Queries.AdminNameIgnoringCase: holds for ASCII case folding only. Java's `equalsIgnoreCase` also matches "admın" (U+0131) and "admİn" (U+0130) with "admin", and H2's `LOWER` does not. So `deleteUser` refuses such a user, but `deleteAllUsersExceptAdmin` deletes it. The model folds ASCII letters only and does not show this divergence.
- Queries.SortByName: names are compared by Unicode scalar value. H2 orders VARCHAR by UTF-16 code unit, as `String.compareTo` does, so the two orders differ for names that mix supplementary chars with chars in U+E000..U+FFFF: "\U{1F600}" sorts before "\U{FF21}" in H2 and after it here.
- JavaText.ToLower: ASCII letters only. Strings are sequences of Unicode scalar values; Java uses UTF-16, so `message.length()` counts UTF-16 units and the model counts chars.
- Dialogs.StripsLeadingIcon: states only that one leading icon prefix is removed, not that no icon text remains. `IconCanSurvive` shows that one pass of `replace` per pattern can leave an icon.
- Auth.App.SignUp: `JoblistingApp.java:323` passes three arguments to the four-argument `addUser`. The model stores the email as absent.
- Database.Store.DeleteAllUsersExceptAdmin: a failure is modelled per user, as a set of failing usernames. A failure is taken to happen before that user's first statement.
- JobList.JobListFrame.AddJob: addJob's -1 (no generated key) is not modelled, because the store always returns the fresh id. So the "Failed to add job." branch is never taken.
- ContactForm.ContactUsFrame.SendMessage: addContactMessage never returns false, so "Failed to send message." is never shown. A store failure is the error message.
- The null checks on resume columns, on `dialogManager` and on `dbManager`. All columns are modelled as present strings.
- JobList.JobListFrame.DeleteSelectedJob: the selected row is already a model index. The view-to-model conversion of a sorted or filtered table is not modelled.
- `recordLogout` has no caller: logout clears only the window's fields. It is modelled in the store.
