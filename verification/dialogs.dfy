/**
 * The decisions DialogManager takes around its store calls: the CSV cell escaping of the
 * exports, the review of an application (status update, then a notice to the applicant),
 * the resume and application forms, the admin's response to a contact message, and the
 * guard of the user-management dialog's delete button.
 *
 * A Swing table model is a sequence of rows held by the dialog; a selected row is an index
 * into it, or -1 when nothing is selected (what `JTable.getSelectedRow` returns).
 */
module Dialogs {
  import opened JavaText
  import opened Schema
  import opened Tables
  import opened Queries
  import opened Database

  // ================= escapeCSV =================

  /** The five display prefixes of the status, role and time cells, in the order escapeCSV removes them. */
  const OnlineIcon: string := "\U{1F7E2} "
  const OfflineIcon: string := "\U{26AB} "
  const AdminIcon: string := "\U{1F510} "
  const CustomerIcon: string := "\U{1F464} "
  const ClockIcon: string := "\U{1F550} "
  const IconPrefixes: seq<string> := [OnlineIcon, OfflineIcon, AdminIcon, CustomerIcon, ClockIcon]

  /** The icon chars the five prefixes start with. */
  const IconChars: set<char> := {'\U{1F7E2}', '\U{26AB}', '\U{1F510}', '\U{1F464}', '\U{1F550}'}

  /** An icon char followed by a space, the icon being no space. */
  predicate IconLike(p: string) {
    |p| == 2 && p[0] != ' ' && p[1] == ' '
  }

  /** `v.replace(ps[0], "").replace(ps[1], "")...`: one `String.replace` per pattern, in order. */
  function StripAll(v: string, ps: seq<string>): string
    requires forall i :: 0 <= i < |ps| ==> ps[i] != []
    decreases |ps|
  {
    if ps == [] then v else StripAll(Replace(v, ps[0], ""), ps[1..])
  }

  /** The first step of escapeCSV: the icon prefixes removed. */
  function StripIcons(v: string): string {
    StripAll(v, IconPrefixes)
  }

  /** The text escapeCSV quotes (or not): icons removed, then every ',' turned into ';'. */
  function CleanCsv(v: string): (r: string)
    ensures ',' !in r
  {
    ReplaceCharGone(StripIcons(v), ',', ";");
    Replace(StripIcons(v), ",", ";")
  }

  /** escapeCSV(value), `null` being `None`. */
  function EscapeCsv(value: Option<string>): string {
    if value.None? then "\"\""
    else
      var escaped := CleanCsv(value.value);
      if '"' in escaped || '\n' in escaped || '\r' in escaped then "\"" + Replace(escaped, "\"", "\"\"") + "\""
      else if ';' in escaped || IsBlank(escaped) then "\"" + escaped + "\""
      else escaped
  }

  /** How a CSV reader takes one field back: a quoted field loses its quotes and has `""` undoubled. */
  function ReadCsvField(f: string): string {
    if |f| >= 2 && f[0] == '"' && f[|f| - 1] == '"' then Replace(f[1..|f| - 1], "\"\"", "\"") else f
  }

  /** An icon prefix copied past a pattern with another head is kept whole. */
  lemma ReplaceSkipsIcon(icon: string, v: string, pat: string)
    requires IconLike(icon) && IconLike(pat) && icon[0] != pat[0]
    ensures Replace(icon + v, pat, "") == icon + Replace(v, pat, "")
  {
    assert icon + v == [icon[0]] + ([' '] + v);
    ReplaceSkipsChar(icon[0], [' '] + v, pat, "");
    ReplaceSkipsChar(' ', v, pat, "");
    assert icon == [icon[0]] + [' '];
  }

  /** A leading icon prefix is removed by the chain of replacements, whatever follows it. */
  lemma {:induction false} StripAllLeading(icon: string, v: string, ps: seq<string>)
    requires IconLike(icon) && icon in ps
    requires forall i :: 0 <= i < |ps| ==> |ps[i]| == 2 && ps[i][0] != ' ' && ps[i][1] == ' '
    requires forall i :: 0 <= i < |ps| && ps[i] != icon ==> ps[i][0] != icon[0]
    ensures StripAll(icon + v, ps) == StripAll(v, ps)
    decreases |ps|
  {
    if ps[0] == icon {
      ReplaceHead(icon, v, "");
      assert "" + Replace(v, icon, "") == Replace(v, icon, "");
    } else {
      ReplaceSkipsIcon(icon, v, ps[0]);
      assert icon in ps[1..] by { var k :| 0 <= k < |ps| && ps[k] == icon; assert ps[1..][k - 1] == icon; }
      StripAllLeading(icon, Replace(v, ps[0], ""), ps[1..]);
    }
  }

  /** Text holding no head char of the patterns goes through the chain of replacements unchanged. */
  lemma {:induction false} StripAllAbsent(v: string, ps: seq<string>)
    requires forall i :: 0 <= i < |ps| ==> ps[i] != [] && ps[i][0] !in v
    ensures StripAll(v, ps) == v
    decreases |ps|
  {
    if ps != [] {
      ReplaceAbsent(v, ps[0], "");
      StripAllAbsent(v, ps[1..]);
    }
  }

  /** Each of the five prefixes at the front of a cell is dropped from the export. */
  lemma StripsLeadingIcon(icon: string, v: string)
    requires icon in IconPrefixes
    ensures StripIcons(icon + v) == StripIcons(v)
  {
    StripAllLeading(icon, v, IconPrefixes);
  }

  /** A cell without icon chars keeps its text. */
  lemma StripIconsPlain(v: string)
    requires forall c :: c in IconChars ==> c !in v
    ensures StripIcons(v) == v
  {
    StripAllAbsent(v, IconPrefixes);
  }

  /**
   * One left-to-right pass per prefix: removing a prefix can bring two parts of another
   * occurrence together, and that occurrence survives.
   */
  lemma IconCanSurvive()
    ensures StripIcons("\U{1F7E2}\U{1F7E2}  ") == OnlineIcon
  {
    var v := "\U{1F7E2}\U{1F7E2}  ";
    assert v[..2][1] != OnlineIcon[1];
    assert v[1..] == OnlineIcon + " ";
    ReplaceHead(OnlineIcon, " ", "");
    assert Replace(v, OnlineIcon, "") == [v[0]] + Replace(v[1..], OnlineIcon, "");
    assert Replace(v, OnlineIcon, "") == OnlineIcon;
    StripAllAbsent(OnlineIcon, IconPrefixes[1..]);
  }

  /** No exported cell contains a comma, so a cell never splits a CSV line. */
  lemma EscapeCsvNoComma(value: Option<string>)
    ensures ',' !in EscapeCsv(value)
  {
    if value.Some? {
      var e := CleanCsv(value.value);
      ReplaceCharGone(StripIcons(value.value), ',', ";");
      ReplaceCharKeeps(e, '"', "\"\"", ',');
    }
  }

  /** Doubling every quote and then undoubling gives the text back. */
  lemma {:induction false} UndoubleDoubled(e: string)
    ensures Replace(Replace(e, "\"", "\"\""), "\"\"", "\"") == e
    decreases |e|
  {
    if e != [] {
      UndoubleDoubled(e[1..]);
      var d := Replace(e[1..], "\"", "\"\"");
      if e[0] == '"' {
        assert e == "\"" + e[1..];
        ReplaceHead("\"", e[1..], "\"\"");
        ReplaceHead("\"\"", d, "\"");
      } else {
        assert e == [e[0]] + e[1..];
        ReplaceSkipsChar(e[0], e[1..], "\"", "\"\"");
        ReplaceSkipsChar(e[0], d, "\"\"", "\"");
      }
    }
  }

  /**
   * A CSV reader gets back exactly the cleaned text of every cell (icons removed, commas
   * as semicolons), and the empty text for `null`.
   */
  lemma EscapeCsvRoundTrip(value: Option<string>)
    ensures ReadCsvField(EscapeCsv(value)) == if value.None? then "" else CleanCsv(value.value)
  {
    if value.Some? {
      var e := CleanCsv(value.value);
      if '"' in e || '\n' in e || '\r' in e {
        QuotedRoundTrip(e);
      } else if ';' in e || IsBlank(e) {
        WrappedRoundTrip(e);
      } else {
        BareRoundTrip(e);
      }
    }
  }

  /** A cell quoted with its quotes doubled reads back as the text. */
  lemma QuotedRoundTrip(e: string)
    ensures ReadCsvField("\"" + Replace(e, "\"", "\"\"") + "\"") == e
  {
    var d := Replace(e, "\"", "\"\"");
    var f := "\"" + d + "\"";
    assert f[1..|f| - 1] == d;
    UndoubleDoubled(e);
  }

  /** A quote-free text wrapped in quotes reads back as the text. */
  lemma WrappedRoundTrip(e: string)
    requires '"' !in e
    ensures ReadCsvField("\"" + e + "\"") == e
  {
    var f := "\"" + e + "\"";
    assert f[1..|f| - 1] == e;
    ReplaceAbsent(e, "\"\"", "\"");
  }

  /** A quote-free, non-blank text left bare reads back as itself. */
  lemma BareRoundTrip(e: string)
    requires '"' !in e && !IsBlank(e)
    ensures ReadCsvField(e) == e
  {
    assert e != [] by { assert Trim([]) == []; }
    assert e[0] != '"' by { assert e[0] in e; }
  }

  /** A plain cell (no icon, separator, quote or line break, and not blank) is exported as it is. */
  lemma EscapeCsvPlain(v: string)
    requires forall c :: c in IconChars ==> c !in v
    requires ',' !in v && ';' !in v && '"' !in v && '\n' !in v && '\r' !in v
    requires !IsBlank(v)
    ensures EscapeCsv(Some(v)) == v
  {
    StripIconsPlain(v);
    ReplaceAbsent(v, ",", ";");
  }

  // ================= reviewing an application =================

  /** The text sent to the applicant when their application's status changes. */
  function StatusNotice(jobTitle: string, status: string): string {
    "Your application for '" + jobTitle + "' has been " + ToLower(status) + "."
  }

  /** The two statuses the review buttons set give the notices a reader expects. */
  lemma ReviewNotices(jobTitle: string)
    ensures StatusNotice(jobTitle, "Approved") == "Your application for '" + jobTitle + "' has been approved."
    ensures StatusNotice(jobTitle, "Rejected") == "Your application for '" + jobTitle + "' has been rejected."
  {
    assert ToLower("Approved") == "approved" by {
      forall i | 0 <= i < 8 ensures ToLower("Approved")[i] == "approved"[i] {
        assert i == 0 || 'a' <= "Approved"[i] <= 'z';
      }
    }
    assert ToLower("Rejected") == "rejected" by {
      forall i | 0 <= i < 8 ensures ToLower("Rejected")[i] == "rejected"[i] {
        assert i == 0 || 'a' <= "Rejected"[i] <= 'z';
      }
    }
  }

  /** After the status UPDATE, the row it was taken from, with the new status, is in the table. */
  lemma SetStatusKeepsRow(s: seq<Application>, x: Application, status: string)
    requires x in s
    ensures x.(status := status) in SetApplicationStatus(s, x.id, status)
  {
    var k :| 0 <= k < |s| && s[k] == x;
    assert SetApplicationStatus(s, x.id, status)[k] == x.(status := status);
  }

  datatype ReviewResult = NoApplicationSelected | Reviewed | NoSuchApplication

  /** The admin's applications dialog. */
  class ApplicationsDialog {
    /** The table model: getAllApplications' rows, newest first; column 7 shows the status. */
    var rows: seq<Application>

    constructor(db: Store)
      requires db.Valid()
      ensures rows == AllApplications(db.applications)
    {
      var loaded := db.GetAllApplications();
      rows := loaded;
    }

    /**
     * The Approve / Reject buttons: with a row selected, set its status; when a row was
     * updated, show the new status in the table and send the applicant one notice.
     */
    method Review(db: Store, row: int, status: string) returns (r: ReviewResult)
      requires db.Valid() && -1 <= row < |rows|
      modifies this, db`applications, db`notifications, db`nextNotificationId, db`clock
      ensures db.Valid()
      ensures row == -1 ==> r == NoApplicationSelected && db.applications == old(db.applications)
      ensures row != -1 ==> db.applications == SetApplicationStatus(old(db.applications), old(rows[row].id), status)
      ensures r == Reviewed <==> row != -1 && exists a :: a in old(db.applications) && a.id == old(rows[row].id)
      ensures r == Reviewed ==>
                rows == old(rows[row := rows[row].(status := status)]) &&
                db.notifications == old(db.notifications) +
                  [Notification(old(db.nextNotificationId), old(rows[row].username), old(rows[row].jobTitle),
                                StatusNotice(old(rows[row].jobTitle), status), status, false, old(db.clock))]
      ensures r != Reviewed ==> rows == old(rows) && db.notifications == old(db.notifications)
      ensures r == Reviewed && old(rows[row]) in old(db.applications) ==> rows[row] in db.applications
    {
      if row == -1 {
        return NoApplicationSelected;
      }
      var x := rows[row];
      var updated := db.UpdateApplicationStatus(x.id, status);
      if updated {
        rows := rows[row := x.(status := status)];
        var _ := db.AddNotification(x.username, x.jobTitle, StatusNotice(x.jobTitle, status), status);
        if x in old(db.applications) {
          SetStatusKeepsRow(old(db.applications), x, status);
        }
        r := Reviewed;
      } else {
        r := NoSuchApplication;
      }
    }
  }

  // ================= resume and application forms =================

  /** The resume dialog's "filled" flag: the loaded full name and email, untrimmed, are not empty. */
  predicate LoadedResumeFilled(r: Option<ResumeFields>) {
    r.Some? && r.value.fullName != [] && r.value.email != []
  }

  /** Every field of the form, trimmed, as the Save button passes them on. */
  function TrimFields(f: ResumeFields): ResumeFields {
    ResumeFields(Trim(f.fullName), Trim(f.email), Trim(f.phone), Trim(f.address), Trim(f.education),
                 Trim(f.experience), Trim(f.skills), Trim(f.summary))
  }

  /** A resume the Save button accepted reads back as filled. */
  lemma SavedResumeFilled(f: ResumeFields)
    requires !IsBlank(f.fullName) && !IsBlank(f.email)
    ensures LoadedResumeFilled(Some(TrimFields(f)))
    ensures !IsBlank(TrimFields(f).fullName) && !IsBlank(TrimFields(f).email)
  {
    TrimIdempotent(f.fullName);
    TrimIdempotent(f.email);
  }

  /**
   * The Save button of the resume dialog: the trimmed full name and email are required;
   * then the user's resume becomes the trimmed form, and the reopened dialog shows it filled.
   */
  method SaveResume(db: Store, currentUser: string, form: ResumeFields) returns (saved: bool)
    requires db.Valid()
    modifies db`resumes, db`nextResumeId, db`clock
    ensures db.Valid()
    ensures saved <==> !IsBlank(form.fullName) && !IsBlank(form.email)
    ensures !saved ==> db.resumes == old(db.resumes)
    ensures saved ==> db.resumes == UpsertResume(old(db.resumes), currentUser, TrimFields(form), old(db.nextResumeId), old(db.clock))
    ensures saved ==> FindResume(db.resumes, currentUser) == Some(TrimFields(form)) &&
                      LoadedResumeFilled(FindResume(db.resumes, currentUser))
  {
    var fullName := Trim(form.fullName);
    var email := Trim(form.email);
    if fullName == [] || email == [] {
      return false;
    }
    saved := db.SaveOrUpdateResume(currentUser, TrimFields(form));
    SavedResumeFilled(form);
  }

  datatype SubmitResult = MissingNameOrEmail | Submitted | SubmitFailed

  /**
   * The Submit button of the apply dialog: the trimmed applicant name and email are
   * required before addApplication is called, and every value it receives is trimmed.
   */
  method SubmitApplication(db: Store, currentUser: string, jobTitle: string, company: string, name: string,
                           email: string, phone: string, coverLetter: string, fault: Fault) returns (r: SubmitResult)
    requires db.Valid()
    modifies db`applications, db`nextApplicationId, db`notifications, db`nextNotificationId, db`clock
    ensures db.Valid()
    ensures IsBlank(name) || IsBlank(email) ==>
              r == MissingNameOrEmail && db.applications == old(db.applications) && db.notifications == old(db.notifications)
    ensures !IsBlank(name) && !IsBlank(email) && fault != InsertFails ==>
              db.applications == old(db.applications) +
                [Application(old(db.nextApplicationId), currentUser, jobTitle, company, Trim(name), Trim(email),
                             Trim(phone), Trim(coverLetter), StatusPending, old(db.clock))]
    ensures r == Submitted <==> !IsBlank(name) && !IsBlank(email) && fault == NoFault
    ensures r == SubmitFailed ==> db.notifications == old(db.notifications)
    ensures r == Submitted ==>
              db.notifications == old(db.notifications) +
                [Notification(old(db.nextNotificationId), AdminName, jobTitle,
                              NewApplicationNotice(Trim(name), currentUser, jobTitle), StatusPending, false, old(db.clock) + 1)]
  {
    var n := Trim(name);
    var e := Trim(email);
    if n == [] || e == [] {
      return MissingNameOrEmail;
    }
    var added := db.AddApplication(currentUser, jobTitle, company, n, e, Trim(phone), Trim(coverLetter), fault);
    r := if added == Ok(true) then Submitted else SubmitFailed;
  }

  // ================= responding to a contact message =================

  const StatusResolved: string := "Resolved"

  /** A response that is not blank stays not blank once trimmed, so its author is notified. */
  lemma TrimmedResponseIsReal(text: string)
    requires !IsBlank(text)
    ensures IsRealResponse(Some(Trim(text)))
  {
    TrimIdempotent(text);
  }

  datatype RespondResult = NoMessageSelected | EmptyResponse | Responded | NoSuchMessage

  /**
   * What "Respond & Mark as Resolved" on message `id` with response text `text` does to the
   * contact and notification tables (`0` marks the tables and counters before): a blank
   * response changes nothing; otherwise the message gets status "Resolved" and the trimmed
   * response, and when it exists its author gets one notice.
   */
  ghost predicate ResolvedAs(contacts0: seq<ContactMessage>, notifications0: seq<Notification>, nextNotificationId0: int,
                             clock0: int, id: int, text: string, r: RespondResult,
                             contacts: seq<ContactMessage>, notifications: seq<Notification>)
  {
    (IsBlank(text) ==> r == EmptyResponse && contacts == contacts0 && notifications == notifications0) &&
    (!IsBlank(text) ==> contacts == RespondToContact(contacts0, id, StatusResolved, Some(Trim(text)))) &&
    (r == Responded <==> !IsBlank(text) && exists c :: c in contacts0 && c.id == id) &&
    (r == Responded ==>
       FindContact(contacts, id).Some? &&
       notifications == notifications0 +
         [Notification(nextNotificationId0, FindContact(contacts, id).value.username, ContactSubject,
                       ResponseNotice(FindContact(contacts, id).value.subject), StatusResolved, false, clock0)]) &&
    (r != Responded ==> notifications == notifications0) &&
    (r == EmptyResponse || r == Responded || r == NoSuchMessage)
  }

  /** The store side of "Respond & Mark as Resolved" on message `id`. */
  method ResolveMessage(db: Store, id: int, text: string) returns (r: RespondResult)
    requires db.Valid()
    modifies db`contacts, db`notifications, db`nextNotificationId, db`clock
    ensures db.Valid()
    ensures ResolvedAs(old(db.contacts), old(db.notifications), old(db.nextNotificationId), old(db.clock), id, text, r,
                       db.contacts, db.notifications)
  {
    var response := Trim(text);
    if response == [] {
      return EmptyResponse;
    }
    TrimmedResponseIsReal(text);
    var updated := db.UpdateContactMessageStatus(id, StatusResolved, Some(response));
    r := if updated then Responded else NoSuchMessage;
  }

  /** The loop over getAllContactMessages that stops at the first message with the id, or runs off the end. */
  method IndexOfId(all: seq<ContactMessage>, id: int) returns (k: int)
    ensures 0 <= k <= |all|
    ensures forall j :: 0 <= j < k ==> all[j].id != id
    ensures k < |all| ==> all[k].id == id
    ensures k == |all| <==> forall c :: c in all ==> c.id != id
  {
    k := 0;
    while k < |all| && all[k].id != id
      invariant 0 <= k <= |all|
      invariant forall j :: 0 <= j < k ==> all[j].id != id
    {
      k := k + 1;
    }
  }

  /** The response area after a selection: the stored response, or empty when it is null or blank. */
  function ShownResponse(response: Option<string>): string {
    if IsRealResponse(response) then response.value else []
  }

  /**
   * What selecting the message with id `id` does (`0` marks the state before): when the
   * message exists, its text and stored response are shown and it is marked read;
   * otherwise nothing changes.
   */
  ghost predicate SelectedAs(contacts0: seq<ContactMessage>, messageText0: string, responseText0: string, id: int,
                             contacts: seq<ContactMessage>, messageText: string, responseText: string)
  {
    match FindContact(contacts0, id)
    case None => contacts == contacts0 && messageText == messageText0 && responseText == responseText0
    case Some(c) =>
      contacts == MarkContactRead(contacts0, id) && messageText == "Message: " + c.message &&
      responseText == ShownResponse(c.adminResponse)
  }

  /** The search over getAllContactMessages finds what FindContact finds, when ids are ascending. */
  lemma FoundInListing(s: seq<ContactMessage>, id: int, k: int)
    requires Ascending(s, ContactId) && 0 <= k <= |s|
    requires k < |s| ==> AllContactMessages(s)[k].id == id
    requires k == |s| <==> forall c :: c in AllContactMessages(s) ==> c.id != id
    ensures k == |s| ==> FindContact(s, id).None?
    ensures k < |s| ==> FindContact(s, id) == Some(AllContactMessages(s)[k])
  {
    ReverseMembers(s);
    if k < |s| {
      ContactIdIsKey(s, AllContactMessages(s)[k]);
    }
  }

  /** The admin's contact-message inbox. */
  class ContactInbox {
    /** The table model: getAllContactMessages' rows, newest first. */
    var rows: seq<ContactMessage>
    /** The message text area. */
    var messageText: string
    /** The response text area. */
    var responseText: string

    constructor(db: Store)
      requires db.Valid()
      ensures rows == AllContactMessages(db.contacts) && messageText == [] && responseText == []
    {
      var loaded := db.GetAllContactMessages();
      rows, messageText, responseText := loaded, [], [];
    }

    /**
     * Selecting row `row`: the message with that row's id is looked up in getAllContactMessages;
     * when it is there, its text is shown, its stored response (if not blank) fills the response
     * area, and it is marked read. A message deleted meanwhile changes nothing.
     */
    method Select(db: Store, row: int)
      requires db.Valid() && -1 <= row < |rows|
      modifies this`messageText, this`responseText, db`contacts
      ensures db.Valid()
      ensures row == -1 ==>
                db.contacts == old(db.contacts) && messageText == old(messageText) && responseText == old(responseText)
      ensures row != -1 ==>
                SelectedAs(old(db.contacts), old(messageText), old(responseText), rows[row].id,
                           db.contacts, messageText, responseText)
    {
      if row == -1 {
        return;
      }
      var id := rows[row].id;
      var all := db.GetAllContactMessages();
      var k := IndexOfId(all, id);
      FoundInListing(db.contacts, id, k);
      if k < |all| {
        Open(db, all[k]);
      }
    }

    /** The found message: its text and stored response are shown, and it is marked read. */
    method Open(db: Store, c: ContactMessage)
      requires db.Valid()
      modifies this`messageText, this`responseText, db`contacts
      ensures db.Valid()
      ensures db.contacts == MarkContactRead(old(db.contacts), c.id)
      ensures messageText == "Message: " + c.message && responseText == ShownResponse(c.adminResponse)
    {
      messageText := "Message: " + c.message;
      responseText := ShownResponse(c.adminResponse);
      var _ := db.MarkContactMessageAsRead(c.id);
    }

    /**
     * "Respond & Mark as Resolved": with a message selected, resolve it with the response
     * text (see ResolveMessage); when a row was updated, clear the text and reload the inbox.
     */
    method Respond(db: Store, row: int) returns (r: RespondResult)
      requires db.Valid() && -1 <= row < |rows|
      modifies this, db`contacts, db`notifications, db`nextNotificationId, db`clock
      ensures db.Valid()
      ensures row == -1 ==> r == NoMessageSelected && db.contacts == old(db.contacts) && db.notifications == old(db.notifications)
      ensures row != -1 ==>
                ResolvedAs(old(db.contacts), old(db.notifications), old(db.nextNotificationId), old(db.clock),
                           old(rows[row].id), old(responseText), r, db.contacts, db.notifications)
      ensures r == Responded ==> responseText == [] && rows == AllContactMessages(db.contacts)
      ensures r != Responded ==> responseText == old(responseText) && rows == old(rows)
      ensures messageText == old(messageText)
    {
      if row == -1 {
        return NoMessageSelected;
      }
      r := ResolveMessage(db, rows[row].id, responseText);
      if r == Responded {
        responseText := [];
        rows := AllContactMessages(db.contacts);
      }
    }
  }

  // ================= deleting a user =================

  /** `"Admin".equals(role) && "admin".equalsIgnoreCase(username)` on the selected row. */
  predicate DialogBlocksDelete(role: string, username: string) {
    role == AdminRole && EqualsIgnoreCase(AdminName, username)
  }

  /** Whatever the dialog blocks, the store would refuse too: the store looks at the username alone. */
  lemma DialogGuardWithinStoreGuard(role: string, username: string)
    ensures DialogBlocksDelete(role, username) ==> EqualsIgnoreCase(AdminName, username)
    ensures DialogBlocksDelete(role, username) <==> role == AdminRole && IsAdminName(username)
  {
    AdminNameIgnoringCase(username);
  }

  /** A row named "ADMIN" with a role other than "Admin" passes the dialog; only the store refuses it. */
  lemma DialogPassesOtherRoles()
    ensures !DialogBlocksDelete(CustomerRole, "ADMIN") && EqualsIgnoreCase(AdminName, "ADMIN")
  {
    assert ToLower("ADMIN") == ToLower(AdminName) by {
      forall i | 0 <= i < 5 ensures ToLower("ADMIN")[i] == ToLower(AdminName)[i] {
        assert 'A' <= "ADMIN"[i] <= 'Z';
      }
    }
  }

  datatype UserDeleteResult = NoUserSelected | AdminRowProtected | DeleteCancelled | UserDeleted | NoSuchUser
                            | DeleteRefused(error: StoreError)

  /** The admin's user-management dialog. */
  class UserManagement {
    /** The table model: getAllUsersWithSessions' rows, ordered by username. */
    var rows: seq<UserSummary>

    constructor(db: Store)
      requires db.Valid()
      ensures rows == AllUsersWithSessions(db.users, db.sessions)
    {
      var loaded := db.GetAllUsersWithSessions();
      rows := loaded;
    }

    /**
     * "Delete User": a selected row is required, the admin row is protected, the admin
     * confirms; then deleteUser(id, username) runs and, when a row was deleted, the table
     * is reloaded. A row whose name is "admin" in any letter case is never deleted.
     */
    method DeleteSelectedUser(db: Store, row: int, confirmed: bool) returns (r: UserDeleteResult)
      requires db.Valid() && -1 <= row < |rows|
      modifies this, db`users, db`sessions, db`applications, db`notifications, db`resumes, db`contacts
      ensures db.Valid()
      ensures row == -1 ==> r == NoUserSelected
      ensures row != -1 && DialogBlocksDelete(old(rows[row].role), old(rows[row].username)) ==> r == AdminRowProtected
      ensures row != -1 && !DialogBlocksDelete(old(rows[row].role), old(rows[row].username)) && !confirmed ==>
                r == DeleteCancelled
      ensures r == NoUserSelected || r == AdminRowProtected || r == DeleteCancelled || r.DeleteRefused? ==>
                db.users == old(db.users) && db.sessions == old(db.sessions) &&
                db.applications == old(db.applications) && db.notifications == old(db.notifications) &&
                db.resumes == old(db.resumes) && db.contacts == old(db.contacts)
      ensures row != -1 && EqualsIgnoreCase(AdminName, old(rows[row].username)) ==>
                r == AdminRowProtected || r == DeleteCancelled || r == DeleteRefused(CannotDeleteAdmin)
      ensures r == UserDeleted || r == NoSuchUser ==>
                row != -1 && confirmed && !EqualsIgnoreCase(AdminName, old(rows[row].username)) &&
                db.users == WithoutUserId(old(db.users), old(rows[row].id)) &&
                db.sessions == Without(old(db.sessions), SessionOwner, {old(rows[row].username)}) &&
                db.applications == Without(old(db.applications), ApplicationOwner, {old(rows[row].username)}) &&
                db.notifications == Without(old(db.notifications), NotificationOwner, {old(rows[row].username)}) &&
                db.resumes == Without(old(db.resumes), ResumeOwner, {old(rows[row].username)}) &&
                db.contacts == Without(old(db.contacts), ContactOwner, {old(rows[row].username)})
      ensures r == UserDeleted <==>
                row != -1 && confirmed && !EqualsIgnoreCase(AdminName, old(rows[row].username)) &&
                !DialogBlocksDelete(old(rows[row].role), old(rows[row].username)) &&
                exists x :: x in old(db.users) && x.id == old(rows[row].id)
      ensures r == UserDeleted ==> rows == AllUsersWithSessions(db.users, db.sessions)
      ensures r != UserDeleted ==> rows == old(rows)
    {
      if row == -1 {
        return NoUserSelected;
      }
      var selected := rows[row];
      if selected.role == AdminRole && EqualsIgnoreCase(AdminName, selected.username) {
        return AdminRowProtected;
      }
      if !confirmed {
        return DeleteCancelled;
      }
      var outcome := db.DeleteUser(selected.id, selected.username);
      match outcome {
        case Err(e) =>
          r := DeleteRefused(e);
        case Ok(deleted) =>
          if deleted {
            rows := AllUsersWithSessions(db.users, db.sessions);
            r := UserDeleted;
          } else {
            r := NoSuchUser;
          }
      }
    }
  }
}
