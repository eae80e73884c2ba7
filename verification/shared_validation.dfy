/** Both handlers test an address against the same email shape. */
module SharedValidation {
  import opened Common
  import opened Http
  import EmailShape
  import OtpHandler
  import ContactRelay

  /** For a non-empty address, `send-otp` answers "Valid email is required"
      and `send-contact-email` (other fields present) answers "Invalid email
      format" exactly when the address fails the shape; then neither
      mutates anything nor sends mail. */
  lemma BothEndpointsShareTheShape(store: OtpHandler.Store, req: OtpHandler.Request, now: int, rand: real,
                                   dispatch: OtpHandler.Dispatch, contact: ContactRelay.ContactRequest)
    requires 0.0 <= rand < 1.0
    requires Truthy(req.email)
    requires contact.email == req.email && Truthy(contact.name) && Truthy(contact.message)
    ensures var s := OtpHandler.Handle(store, req, now, rand, dispatch);
      s.response == BadRequest("Valid email is required") <==> !EmailShape.IsEmailShape(req.email.value)
    ensures var r := ContactRelay.Relay(contact);
      r.response == BadRequest("Invalid email format") <==> !EmailShape.IsEmailShape(req.email.value)
    ensures !EmailShape.IsEmailShape(req.email.value) ==>
      && OtpHandler.Handle(store, req, now, rand, dispatch).store == store
      && OtpHandler.Handle(store, req, now, rand, dispatch).outbox == []
      && ContactRelay.Relay(contact).outbox == []
  {
  }

  /** The example shapes are turned away by `send-otp` whatever the action. */
  lemma OtpRejectsExampleShapes(store: OtpHandler.Store, req: OtpHandler.Request, now: int, rand: real,
                                dispatch: OtpHandler.Dispatch)
    requires 0.0 <= rand < 1.0
    requires req.email in {Some("a@b"), Some("not-an-email"), Some(""), None}
    ensures OtpHandler.Handle(store, req, now, rand, dispatch)
      == OtpHandler.Rejected(store, "Valid email is required")
  {
    EmailShape.NoAtRejected();
    EmailShape.NoDomainDotRejected();
  }
}
