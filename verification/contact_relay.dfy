/** The `send-contact-email` handler: presence and shape checks, HTML-safe
    rendering of the submission, and the two mails it hands the gateway. */
module ContactRelay {
  import opened Common
  import opened Http
  import opened Mail
  import opened Html
  import EmailShape

  /** The JSON request body; every field may be missing. */
  datatype ContactRequest = ContactRequest(
    name: Option<string>,
    email: Option<string>,
    message: Option<string>,
    fileName: Option<string>)

  /** One invocation: the response and the mails handed to the gateway, in
      the order they were sent. */
  datatype Relayed = Relayed(response: Response, outbox: seq<Email>)

  const OwnerAddress: string := "moizrehmanofficial@gmail.com"
  const OwnerSender: string := "Portfolio Contact <noreply@moizrehman.site>"
  const ConfirmationSender: string := "Moiz Rehman <noreply@moizrehman.site>"
  const SubjectPrefix: string := "New Contact: "
  const ConfirmationSubject: string := "Thanks for reaching out!"

  /** Fixed text of the owner notification's template. */
  const OwnerOpening: string :=
    "\n        <h2>New Contact Form Submission</h2>\n        <p><strong>Name:</strong> "
  const OwnerEmailLabel: string :=
    "</p>\n        <p><strong>Email:</strong> "
  const OwnerMessageLabel: string :=
    "</p>\n        <p><strong>Message:</strong></p>\n        <p>"
  const OwnerMessageEnd: string :=
    "</p>\n        "
  const AttachmentLabel: string :=
    "<p><strong>Attached File:</strong> "
  const AttachmentEnd: string :=
    " (User mentioned they have a file to share)</p>"
  const OwnerReplyHint: string :=
    "\n        <hr>\n        <p><em>Reply directly to this email to respond to "
  const OwnerClosing: string :=
    ".</em></p>\n      "

  /** Fixed text of the confirmation's template. */
  const ConfirmationOpening: string :=
    "\n        <h2>Hi "
  const ConfirmationIntro: string :=
    "!</h2>\n        <p>Thank you for contacting me. I've received your message and will get back to you as soon as possible.</p>\n        <p><strong>Your message:</strong></p>\n        <blockquote style=\"border-left: 3px solid #10b981; padding-left: 16px; color: #666;\">\n          "
  const ConfirmationClosing: string :=
    "\n        </blockquote>\n        <p>Best regards,<br>Moiz Rehman</p>\n      "

  /** `${safeFileName ? `<p>...</p>` : ""}`: the attached-file paragraph,
      present only for a non-empty file name. */
  function AttachmentNote(fileName: Option<string>): seq<Fragment>
  {
    if Truthy(fileName) then
      [Literal(AttachmentLabel), Value(EscapeHtml(fileName.value)), Literal(AttachmentEnd)]
    else []
  }

  /** The notification body, in three parts: before, the attachment
      paragraph, after. */
  function OwnerBody(name: string, email: string, message: string, fileName: Option<string>): seq<Fragment>
  {
    [ Literal(OwnerOpening), Value(EscapeHtml(name)),
      Literal(OwnerEmailLabel), Value(EscapeHtml(email)),
      Literal(OwnerMessageLabel), Value(SafeMessage(message)),
      Literal(OwnerMessageEnd) ]
    + AttachmentNote(fileName)
    + [ Literal(OwnerReplyHint), Value(EscapeHtml(name)), Literal(OwnerClosing) ]
  }

  /** The notification to the site owner: replies go to the submitter. */
  function OwnerMail(name: string, email: string, message: string, fileName: Option<string>): Email
  {
    Email(OwnerSender, [OwnerAddress], Some(email), SubjectPrefix + EscapeHtml(name),
          OwnerBody(name, email, message, fileName))
  }

  /** The confirmation to the submitter, echoing the message. */
  function ConfirmationMail(name: string, email: string, message: string): Email
  {
    Email(ConfirmationSender, [email], None, ConfirmationSubject,
          [ Literal(ConfirmationOpening), Value(EscapeHtml(name)),
            Literal(ConfirmationIntro), Value(SafeMessage(message)),
            Literal(ConfirmationClosing) ])
  }

  /** The request passes both checks: the three fields are present and the
      email has the shape. */
  predicate Submittable(req: ContactRequest)
  {
    Truthy(req.name) && Truthy(req.email) && Truthy(req.message) && EmailShape.IsEmailShape(req.email.value)
  }

  /** The handler for one POST request, the gateway accepting both mails. */
  function Relay(req: ContactRequest): (r: Relayed)
    ensures !Truthy(req.name) || !Truthy(req.email) || !Truthy(req.message) ==>
      r == Relayed(BadRequest("Name, email, and message are required"), [])
    ensures Truthy(req.name) && Truthy(req.email) && Truthy(req.message)
            && !EmailShape.IsEmailShape(req.email.value) ==>
      r == Relayed(BadRequest("Invalid email format"), [])
    ensures r.outbox != [] <==> Submittable(req)
    ensures Submittable(req) ==>
      r.outbox == [ OwnerMail(req.name.value, req.email.value, req.message.value, req.fileName),
                    ConfirmationMail(req.name.value, req.email.value, req.message.value) ]
    ensures Submittable(req) ==>
      && r.response == Response(200, Ack("Emails sent successfully"))
      && |r.outbox| == 2
      && r.outbox[0].to == [OwnerAddress]
      && r.outbox[0].replyTo == Some(req.email.value)
      && r.outbox[0].subject == SubjectPrefix + EscapeHtml(req.name.value)
      && r.outbox[1].to == [req.email.value]
      && r.outbox[1].replyTo == None
  {
    if !Truthy(req.name) || !Truthy(req.email) || !Truthy(req.message) then
      Relayed(BadRequest("Name, email, and message are required"), [])
    else if !EmailShape.IsEmailShape(req.email.value) then
      Relayed(BadRequest("Invalid email format"), [])
    else
      var name, email, message := req.name.value, req.email.value, req.message.value;
      Relayed(Response(200, Ack("Emails sent successfully")),
              [OwnerMail(name, email, message, req.fileName), ConfirmationMail(name, email, message)])
  }

  /** Every interpolated value of `body` is inert HTML apart from `<br>`. */
  predicate ValuesInert(body: seq<Fragment>)
  {
    forall k :: 0 <= k < |body| && body[k].Value? ==> InertWithBreaks(body[k].text)
  }

  lemma EscapeHtmlInert(s: string)
    ensures InertWithBreaks(EscapeHtml(s))
  {
    EscapeHtmlIsEscaped(s);
    EscapedIsInertWithBreaks(EscapeHtml(s));
  }

  lemma OwnerBodyInert(name: string, email: string, message: string, fileName: Option<string>)
    ensures ValuesInert(OwnerBody(name, email, message, fileName))
  {
    EscapeHtmlInert(name);
    EscapeHtmlInert(email);
    SafeMessageIsInert(message);
    if Truthy(fileName) {
      EscapeHtmlInert(fileName.value);
    }
  }

  lemma ConfirmationBodyInert(name: string, email: string, message: string)
    ensures ValuesInert(ConfirmationMail(name, email, message).body)
  {
    EscapeHtmlInert(name);
    SafeMessageIsInert(message);
  }

  /** No request can inject markup into either mail: every interpolated
      value is escaped and the message adds only `<br>` tags; the name in
      the owner's subject line is escaped too. */
  lemma MailsAreInjectionFree(name: string, email: string, message: string, fileName: Option<string>)
    ensures ValuesInert(OwnerMail(name, email, message, fileName).body)
    ensures ValuesInert(ConfirmationMail(name, email, message).body)
    ensures Escaped(OwnerMail(name, email, message, fileName).subject[|SubjectPrefix|..])
  {
    OwnerBodyInert(name, email, message, fileName);
    ConfirmationBodyInert(name, email, message);
    EscapeHtmlIsEscaped(name);
    assert OwnerMail(name, email, message, fileName).subject[|SubjectPrefix|..] == EscapeHtml(name);
  }

  /** The attached-file paragraph appears exactly when `fileName` is
      present and non-empty, and then it shows the escaped file name. */
  lemma AttachmentParagraphIffFileName(name: string, email: string, message: string, fileName: Option<string>)
    ensures Render(OwnerBody(name, email, message, fileName)) == Render(OwnerBody(name, email, message, None))
      <==> !Truthy(fileName)
    ensures Truthy(fileName) ==>
      Contains(Render(OwnerBody(name, email, message, fileName)), EscapeHtml(fileName.value))
  {
    var head := [ Literal(OwnerOpening), Value(EscapeHtml(name)),
                  Literal(OwnerEmailLabel), Value(EscapeHtml(email)),
                  Literal(OwnerMessageLabel), Value(SafeMessage(message)),
                  Literal(OwnerMessageEnd) ];
    var tail := [ Literal(OwnerReplyHint), Value(EscapeHtml(name)), Literal(OwnerClosing) ];
    var note := AttachmentNote(fileName);
    RenderAppend(head + note, tail);
    RenderAppend(head, note);
    RenderAppend(head, tail);
    assert OwnerBody(name, email, message, None) == head + tail;
    if Truthy(fileName) {
      assert |Render(note)| > 0 by {
        assert Render(note) == AttachmentLabel + Render(note[1..]);
      }
      var body := OwnerBody(name, email, message, fileName);
      assert body[8] == Value(EscapeHtml(fileName.value));
      RenderShowsFragment(body, 8);
    } else {
      assert head + note == head;
    }
  }

  /** Both mails carry the name and the message so that decoding gives back
      exactly what was submitted. */
  lemma MailsEchoSubmission(name: string, email: string, message: string, fileName: Option<string>)
    ensures Value(EscapeHtml(name)) in OwnerMail(name, email, message, fileName).body
    ensures Value(SafeMessage(message)) in OwnerMail(name, email, message, fileName).body
    ensures Value(EscapeHtml(name)) in ConfirmationMail(name, email, message).body
    ensures Value(SafeMessage(message)) in ConfirmationMail(name, email, message).body
    ensures UnescapeHtml(EscapeHtml(name)) == name
    ensures UnescapeHtml(RestoreNewlines(SafeMessage(message))) == message
  {
    assert OwnerMail(name, email, message, fileName).body[1] == Value(EscapeHtml(name));
    assert OwnerMail(name, email, message, fileName).body[5] == Value(SafeMessage(message));
    UnescapeEscapeHtml(name);
    SafeMessageRoundTrip(message);
  }

  /** Presence is checked before shape: an empty email, or a missing name
      with a malformed email, is reported as a missing field. */
  lemma MissingFieldReportedFirst(name: string, message: string, fileName: Option<string>)
    requires name != "" && message != ""
    ensures Relay(ContactRequest(Some(name), Some(""), Some(message), fileName)).response
      == BadRequest("Name, email, and message are required")
    ensures Relay(ContactRequest(None, Some("not-an-email"), Some(message), fileName)).response
      == BadRequest("Name, email, and message are required")
  {
  }

  /** With the other fields present, the usual malformed shapes are
      reported as a bad format. */
  lemma MalformedEmailExamples(name: string, message: string, fileName: Option<string>)
    requires name != "" && message != ""
    ensures Relay(ContactRequest(Some(name), Some("not-an-email"), Some(message), fileName)).response
      == BadRequest("Invalid email format")
    ensures Relay(ContactRequest(Some(name), Some("a@b"), Some(message), fileName)).response
      == BadRequest("Invalid email format")
  {
    EmailShape.NoAtRejected();
    EmailShape.NoDomainDotRejected();
  }

  /** Nothing is trimmed: a name and message of blanks go through. */
  lemma BlankFieldsAccepted(fileName: Option<string>)
    ensures Relay(ContactRequest(Some(" "), Some("a@b.com"), Some(" "), fileName)).response
      == Response(200, Ack("Emails sent successfully"))
  {
    EmailShape.PlainAddressAccepted();
  }
}
