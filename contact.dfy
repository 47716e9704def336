/**
 * The contact form action: validate the submission, compose the notification e-mail
 * and hand it to the e-mail service.
 */
module Contact {
  import opened Wrappers
  import opened Text
  import opened Validation

  datatype ContactForm = ContactForm(
    name: Option<string>,
    email: Option<string>,
    subject: Option<string>,
    message: Option<string>)

  datatype Email = Email(from: string, to: seq<string>, subject: string, html: string, replyTo: string)

  /** The service's answer: accepted, an error value, or an exception. */
  datatype SendResult = Delivered | SendError | Thrown

  type Mailer = Email -> SendResult

  /** Failures echo the submitted fields back, except when the service is not configured. */
  datatype Outcome =
    | MessageSent
    | Failure(status: int, error: string, echo: Option<ContactForm>)

  /** The action's outcome together with the e-mail handed to the service, if any. */
  datatype Reply = Reply(outcome: Outcome, sent: Option<Email>)

  const NotConfigured := "Email service is not configured."
  const MissingFields := "Missing required fields (Name, Email, Message)."
  const BadEmail := "Please provide a valid email address."
  const SendFailed := "Failed to send message. Please try again later."
  const SubmitFailed := "There was a problem submitting your message."

  const FromAddress := "ImmoKraini Inquiry <onboarding@resend.dev>"
  const Recipient := "dhiadoudo@gmail.com"
  const DefaultSubject := "New Contact Form Submission"

  /** The indentation of the template's body lines, and of its closing line. */
  const Indent := "                "
  const ClosingIndent := "            "

  function EmailSubject(subject: Option<string>): (s: string)
    ensures Truthy(subject) ==> s == "Contact Form: " + subject.value
    ensures !Truthy(subject) ==> s == DefaultSubject
  {
    if Truthy(subject) then "Contact Form: " + subject.value else DefaultSubject
  }

  /** The message with each line break turned into `<br>`. */
  function MessageHtml(message: string): string {
    ReplaceAll(message, "\n", "<br>")
  }

  /** The subject paragraph, present only for a non-empty subject. */
  function SubjectLine(subject: Option<string>): string {
    if Truthy(subject) then "<p><strong>Subject:</strong> " + subject.value + "</p>" else ""
  }

  /** The lines of the HTML body: an empty first line, eight indented lines, and the
      closing indentation. */
  function TemplateLines(name: string, email: string, subject: Option<string>, message: string): (lines: seq<string>)
    ensures |lines| == 10
  {
    [ "",
      Indent + "<h2>New Contact Form Submission</h2>",
      Indent + "<hr>",
      Indent + "<p><strong>Name:</strong> " + name + "</p>",
      Indent + "<p><strong>Email:</strong> " + email + "</p>",
      Indent + SubjectLine(subject),
      Indent + "<hr>",
      Indent + "<p><strong>Message:</strong></p>",
      Indent + "<p>" + MessageHtml(message) + "</p> ",
      ClosingIndent ]
  }

  function Html(name: string, email: string, subject: Option<string>, message: string): string {
    Join(TemplateLines(name, email, subject, message), "\n")
  }

  /** The e-mail for a valid submission. */
  function Compose(name: string, email: string, subject: Option<string>, message: string): (e: Email)
    ensures e.from == FromAddress && e.to == [Recipient] && e.replyTo == email
    ensures e.subject == EmailSubject(subject)
    ensures e.html == Html(name, email, subject, message)
  {
    Email(FromAddress, [Recipient], EmailSubject(subject), Html(name, email, subject, message), email)
  }

  /** No template line holds a line break when the name, the address and the subject
      hold none: the message's own breaks have become `<br>`. */
  lemma TemplateLinesUnbroken(name: string, email: string, subject: Option<string>, message: string)
    requires '\n' !in name && '\n' !in email && (subject.Some? ==> '\n' !in subject.value)
    ensures var lines := TemplateLines(name, email, subject, message);
      forall i :: 0 <= i < |lines| ==> '\n' !in lines[i]
  {
    var heading := Indent + "<h2>New Contact Form Submission</h2>";
    var rule := Indent + "<hr>";
    var nameLine := Indent + "<p><strong>Name:</strong> " + name + "</p>";
    var emailLine := Indent + "<p><strong>Email:</strong> " + email + "</p>";
    var subjectLine := Indent + SubjectLine(subject);
    var messageLabel := Indent + "<p><strong>Message:</strong></p>";
    var messageLine := Indent + "<p>" + MessageHtml(message) + "</p> ";
    assert '\n' !in Indent by { NoBreak(Indent); }
    assert '\n' !in heading by { NoBreak("<h2>New Contact Form Submission</h2>"); }
    assert '\n' !in rule by { NoBreak("<hr>"); }
    assert '\n' !in "</p>" by { NoBreak("</p>"); }
    assert '\n' !in nameLine by { NoBreak("<p><strong>Name:</strong> "); }
    assert '\n' !in emailLine by { NoBreak("<p><strong>Email:</strong> "); }
    assert '\n' !in subjectLine by { NoBreak("<p><strong>Subject:</strong> "); }
    assert '\n' !in messageLabel by { NoBreak("<p><strong>Message:</strong></p>"); }
    assert '\n' !in messageLine by {
      ReplaceCharRemoves(message, '\n', "<br>");
      NoBreak("<p>");
      NoBreak("</p> ");
    }
    assert '\n' !in ClosingIndent by { NoBreak(ClosingIndent); }
    assert TemplateLines(name, email, subject, message) ==
      ["", heading, rule, nameLine, emailLine, subjectLine, rule, messageLabel, messageLine, ClosingIndent];
  }

  /** A string none of whose characters is a line feed holds no line feed. */
  lemma NoBreak(s: string)
    requires forall i :: 0 <= i < |s| ==> s[i] != '\n'
    ensures '\n' !in s
  {
  }

  /** Whatever the message holds, it fills exactly one line of the body: when the name,
      the address and the subject have no line break, the body's lines are the
      template's ten lines, and the message line shows the message's lines joined
      with `<br>`. */
  lemma MessageOnOneLine(name: string, email: string, subject: Option<string>, message: string)
    requires '\n' !in name && '\n' !in email && (subject.Some? ==> '\n' !in subject.value)
    ensures Split(Html(name, email, subject, message), '\n') == TemplateLines(name, email, subject, message)
    ensures TemplateLines(name, email, subject, message)[8] ==
              Indent + "<p>" + Join(Split(message, '\n'), "<br>") + "</p> "
  {
    TemplateLinesUnbroken(name, email, subject, message);
    SplitJoin(TemplateLines(name, email, subject, message), '\n');
    ReplaceCharIsSplitJoin(message, '\n', "<br>");
  }

  /** The action. `configured` is false when no API key is set. */
  function Submit(configured: bool, form: ContactForm, send: Mailer): (r: Reply)
    ensures !configured ==> r == Reply(Failure(500, NotConfigured, None), None)
    ensures configured && !(Truthy(form.name) && Truthy(form.email) && Truthy(form.message)) ==>
              r == Reply(Failure(400, MissingFields, Some(form)), None)
    ensures configured && Truthy(form.name) && Truthy(form.email) && Truthy(form.message)
            && !EmailShape(form.email.value) ==>
              r == Reply(Failure(400, BadEmail, Some(form)), None)
    ensures r.sent.Some? <==>
              configured && Truthy(form.name) && Truthy(form.email) && Truthy(form.message)
              && EmailShape(form.email.value)
    ensures r.sent.Some? ==>
      && r.sent.value == Compose(form.name.value, form.email.value, form.subject, form.message.value)
      && r.outcome == match send(r.sent.value)
                      case Delivered => MessageSent
                      case SendError => Failure(500, SendFailed, Some(form))
                      case Thrown => Failure(500, SubmitFailed, Some(form))
  {
    if !configured then Reply(Failure(500, NotConfigured, None), None)
    else if !(Truthy(form.name) && Truthy(form.email) && Truthy(form.message)) then
      Reply(Failure(400, MissingFields, Some(form)), None)
    else
      EmailCharacterisation(form.email.value);
      if !IsEmail(form.email.value) then Reply(Failure(400, BadEmail, Some(form)), None)
      else
        var e := Compose(form.name.value, form.email.value, form.subject, form.message.value);
        match send(e)
        case Delivered => Reply(MessageSent, Some(e))
        case SendError => Reply(Failure(500, SendFailed, Some(form)), Some(e))
        case Thrown => Reply(Failure(500, SubmitFailed, Some(form)), Some(e))
  }
}
