/**
 * The customer's "Contact Us" window: validation of the form before addContactMessage,
 * clearing the form after a message is sent, and the list of the user's own messages.
 */
module ContactForm {
  import opened JavaText
  import opened Schema
  import opened Queries
  import opened Database

  // ================= validation =================

  /** A message needs at least this many chars once trimmed. */
  const MinMessageLength: nat := 10

  /** The checks sendMessage makes, one warning each. */
  datatype ContactCheck = MissingSubject | MissingEmail | InvalidEmail | MissingMessage | MessageTooShort

  /** The order in which sendMessage makes its checks. */
  function Rank(c: ContactCheck): nat {
    match c
    case MissingSubject => 0
    case MissingEmail => 1
    case InvalidEmail => 2
    case MissingMessage => 3
    case MessageTooShort => 4
  }

  /** The "basic email validation": the address contains an '@' and a '.', anywhere. */
  predicate EmailLooksValid(email: string) {
    '@' in email && '.' in email
  }

  /** Whether check `c` objects to the trimmed subject, email and message. */
  predicate Fails(c: ContactCheck, subject: string, email: string, message: string) {
    match c
    case MissingSubject => subject == []
    case MissingEmail => email == []
    case InvalidEmail => !EmailLooksValid(email)
    case MissingMessage => message == []
    case MessageTooShort => |message| < MinMessageLength
  }

  /** The warning sendMessage shows for the trimmed values, or None when it goes on to send. */
  function ValidateContact(subject: string, email: string, message: string): Option<ContactCheck> {
    if subject == [] then Some(MissingSubject)
    else if email == [] then Some(MissingEmail)
    else if !EmailLooksValid(email) then Some(InvalidEmail)
    else if message == [] then Some(MissingMessage)
    else if |message| < MinMessageLength then Some(MessageTooShort)
    else None
  }

  /** The warning shown is the first check, in sendMessage's order, that fails. */
  lemma ValidateContactReportsFirstFailure(subject: string, email: string, message: string, c: ContactCheck)
    ensures ValidateContact(subject, email, message) == Some(c) <==>
              Fails(c, subject, email, message) &&
              forall d :: Rank(d) < Rank(c) ==> !Fails(d, subject, email, message)
  {
    if Fails(c, subject, email, message) && forall d :: Rank(d) < Rank(c) ==> !Fails(d, subject, email, message) {
      assert Rank(MissingSubject) == 0 && Rank(MissingEmail) == 1 && Rank(InvalidEmail) == 2 && Rank(MissingMessage) == 3;
    }
  }

  /** The message is sent exactly when no check fails. */
  lemma ValidateContactAccepts(subject: string, email: string, message: string)
    ensures ValidateContact(subject, email, message) == None <==> forall c :: !Fails(c, subject, email, message)
  {
    if ValidateContact(subject, email, message) == None {
      forall c ensures !Fails(c, subject, email, message) {
      }
    } else {
      var c := ValidateContact(subject, email, message).value;
      ValidateContactReportsFirstFailure(subject, email, message, c);
    }
  }

  /** The email check is weak: ".@" passes it. */
  lemma WeakEmailAccepted()
    ensures ValidateContact("Hello", ".@", "0123456789") == None
  {
    assert '@' in ".@" && '.' in ".@";
  }

  // ================= the list of the user's messages =================

  const NewIcon: string := "\U{1F195}"
  const ResolvedIcon: string := "\U{2705}"

  /** 🆕 for a message whose status is exactly "New", ✅ for every other status. */
  function StatusIcon(status: string): string {
    if status == StatusNew then NewIcon else ResolvedIcon
  }

  /** `String.format("%s [%s] %s - %s", statusIcon, status, subject, date)` */
  function MessageLine(status: string, subject: string, date: string): string {
    StatusIcon(status) + " [" + status + "] " + subject + " - " + date
  }

  /**
   * A line starts with the 🆕 icon exactly when the status is "New", and the status can be
   * read back between the brackets, followed by the subject.
   */
  lemma MessageLineReadsBack(status: string, subject: string, date: string)
    ensures var line := MessageLine(status, subject, date);
            |line| == 8 + |status| + |subject| + |date| &&
            (line[0] == NewIcon[0] <==> status == StatusNew) &&
            line[1..3] == " [" && line[3..3 + |status|] == status && line[3 + |status|..5 + |status|] == "] " &&
            line[5 + |status|..5 + |status| + |subject|] == subject
  {
    var line := MessageLine(status, subject, date);
    var icon := StatusIcon(status);
    assert |icon| == 1;
    assert line == icon + (" [" + (status + ("] " + (subject + (" - " + date)))));
  }

  /** The list model built from getUserContactMessages: one line per message, in the same order. */
  method MessageLines(messages: seq<UserContactRow>, dateText: int -> string) returns (lines: seq<string>)
    ensures |lines| == |messages|
    ensures forall i :: 0 <= i < |messages| ==>
              lines[i] == MessageLine(messages[i].status, messages[i].subject, dateText(messages[i].createdAt))
  {
    lines := [];
    for k := 0 to |messages|
      invariant |lines| == k
      invariant forall i :: 0 <= i < k ==>
                  lines[i] == MessageLine(messages[i].status, messages[i].subject, dateText(messages[i].createdAt))
    {
      var msg := messages[k];
      lines := lines + [MessageLine(msg.status, msg.subject, dateText(msg.createdAt))];
    }
  }

  // ================= the window =================

  datatype SendResult = Invalid(check: ContactCheck) | Sent | SendFailed

  datatype MessagesView = NoMessagesYet | MessageList(lines: seq<string>)

  class ContactUsFrame {
    /** The signed-in user the window was opened for. */
    const currentUser: string
    /** The form's four fields. */
    var subjectField: string
    var emailField: string
    var phoneField: string
    var messageField: string

    constructor(currentUser: string)
      ensures this.currentUser == currentUser
      ensures subjectField == [] && emailField == [] && phoneField == [] && messageField == []
    {
      this.currentUser := currentUser;
      subjectField, emailField, phoneField, messageField := [], [], [], [];
    }

    /**
     * "Send Message": every field is trimmed, the checks run in order, and addContactMessage
     * receives the trimmed values; the form is cleared only when the message was sent.
     * A database failure shows an error and leaves the form as it was.
     */
    method SendMessage(db: Store, fault: Fault) returns (r: SendResult)
      requires db.Valid()
      modifies this`subjectField, this`emailField, this`phoneField, this`messageField,
               db`contacts, db`nextContactId, db`notifications, db`nextNotificationId, db`clock
      ensures db.Valid()
      ensures var check := ValidateContact(Trim(old(subjectField)), Trim(old(emailField)), Trim(old(messageField)));
              (r.Invalid? <==> check.Some?) && (r.Invalid? ==> r.check == check.value) &&
              (r == Sent <==> check == None && fault == NoFault)
      ensures r.Invalid? ==> db.contacts == old(db.contacts) && db.notifications == old(db.notifications)
      ensures !r.Invalid? && fault != InsertFails ==>
                db.contacts == old(db.contacts) +
                  [ContactMessage(old(db.nextContactId), currentUser, Trim(old(subjectField)), Trim(old(messageField)),
                                  Trim(old(emailField)), Trim(old(phoneField)), StatusNew, false, None, old(db.clock))]
      ensures r == SendFailed ==> db.notifications == old(db.notifications)
      ensures r == Sent ==>
                db.notifications == old(db.notifications) +
                  [Notification(old(db.nextNotificationId), AdminName, ContactSubject,
                                NewContactNotice(currentUser, Trim(old(subjectField))), StatusNew, false, old(db.clock) + 1)]
      ensures r == Sent ==> subjectField == [] && emailField == [] && phoneField == [] && messageField == []
      ensures r != Sent ==>
                subjectField == old(subjectField) && emailField == old(emailField) &&
                phoneField == old(phoneField) && messageField == old(messageField)
    {
      var subject, email := Trim(subjectField), Trim(emailField);
      var phone, message := Trim(phoneField), Trim(messageField);
      var check := ValidateContact(subject, email, message);
      if check.Some? {
        return Invalid(check.value);
      }
      var sent := Post(db, subject, message, email, phone, fault);
      r := if sent then Sent else SendFailed;
    }

    /** addContactMessage with the checked values; the form is cleared when it reports success. */
    method Post(db: Store, subject: string, message: string, email: string, phone: string, fault: Fault)
        returns (sent: bool)
      requires db.Valid()
      modifies this`subjectField, this`emailField, this`phoneField, this`messageField,
               db`contacts, db`nextContactId, db`notifications, db`nextNotificationId, db`clock
      ensures db.Valid()
      ensures sent <==> fault == NoFault
      ensures fault != InsertFails ==>
                db.contacts == old(db.contacts) +
                  [ContactMessage(old(db.nextContactId), currentUser, subject, message, email, phone, StatusNew, false, None, old(db.clock))]
      ensures fault == InsertFails ==> db.contacts == old(db.contacts)
      ensures !sent ==> db.notifications == old(db.notifications)
      ensures sent ==>
                db.notifications == old(db.notifications) +
                  [Notification(old(db.nextNotificationId), AdminName, ContactSubject, NewContactNotice(currentUser, subject),
                                StatusNew, false, old(db.clock) + 1)]
      ensures sent ==> subjectField == [] && emailField == [] && phoneField == [] && messageField == []
      ensures !sent ==>
                subjectField == old(subjectField) && emailField == old(emailField) &&
                phoneField == old(phoneField) && messageField == old(messageField)
    {
      var added := db.AddContactMessage(currentUser, subject, message, email, phone, fault);
      sent := added == Ok(true);
      if sent {
        subjectField, emailField, phoneField, messageField := [], [], [], [];
      }
    }

    /**
     * "My Messages": an information message when the user has sent nothing, otherwise one
     * line per message from getUserContactMessages, newest first.
     */
    method ShowUserMessages(db: Store, dateText: int -> string) returns (v: MessagesView)
      requires db.Valid()
      ensures v == NoMessagesYet <==> ContactsOf(db.contacts, currentUser) == []
      ensures v.MessageList? ==>
                var rows := UserContactMessages(db.contacts, currentUser);
                |v.lines| == |rows| &&
                forall i :: 0 <= i < |rows| ==>
                  v.lines[i] == MessageLine(rows[i].status, rows[i].subject, dateText(rows[i].createdAt))
    {
      var messages := db.GetUserContactMessages(currentUser);
      if messages == [] {
        return NoMessagesYet;
      }
      var lines := MessageLines(messages, dateText);
      v := MessageList(lines);
    }
  }
}
