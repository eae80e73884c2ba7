/** The `send-otp` handler as a pure step function over the process-wide
    OTP store: `(store, request, now, random draw, gateway outcome)` to
    `(store', response, outbox)`. */
module OtpHandler {
  import opened Common
  import opened Http
  import opened Mail
  import EmailShape
  import OtpCode

  /** `10 * 60 * 1000`: a code is good for ten minutes, in milliseconds. */
  const ExpiryWindow: int := 10 * 60 * 1000

  /** The pending entry the store keeps for one address. */
  datatype OtpRecord = OtpRecord(
    code: string,
    expires: int,
    name: string,
    message: string,
    fileName: Option<string>)

  /** `otpStore`: at most one pending record per email address. */
  type Store = map<string, OtpRecord>

  /** The JSON request body; every field may be missing. */
  datatype Request = Request(
    action: Option<string>,
    email: Option<string>,
    name: Option<string>,
    message: Option<string>,
    fileName: Option<string>,
    code: Option<string>)

  /** What the mail gateway did with the one mail `send` hands it. */
  datatype Dispatch = Accepted | Threw(message: string)

  /** One handler invocation: the store afterwards, the response, and the
      mails the gateway accepted. */
  datatype Step = Step(store: Store, response: Response, outbox: seq<Email>)

  /** A 400 answer that leaves the store alone and sends nothing. */
  function Rejected(store: Store, error: string): Step
  {
    Step(store, BadRequest(error), [])
  }

  /** `!email || !emailRegex.test(email)` is false. */
  predicate ValidEmailField(email: Option<string>)
  {
    Truthy(email) && EmailShape.IsEmailShape(email.value)
  }

  /** The store holds the same thing (or nothing) at `e` in both states. */
  predicate SameAt(before: Store, after: Store, e: string)
  {
    && (e in before <==> e in after)
    && (e in before ==> before[e] == after[e])
  }

  /** Fixed text of the verification mail's template, around its two
      interpolations. */
  const OtpMailOpening: string :=
    "\n          <h2>Email Verification</h2>\n          <p>Hi "
  const OtpMailCodeIntro: string :=
    ",</p>\n          <p>Please use the following code to verify your email before sending your message:</p>\n          <div style=\"text-align: center; margin: 30px 0;\">\n            <span style=\"font-size: 32px; font-weight: bold; letter-spacing: 8px; background: #f4f4f4; padding: 16px 32px; border-radius: 8px; display: inline-block;\">\n              "
  const OtpMailClosing: string :=
    "\n            </span>\n          </div>\n          <p>This code expires in 10 minutes.</p>\n          <p>If you didn't request this, you can safely ignore this email.</p>\n          <p>Best regards,<br>Moiz Rehman</p>\n        "

  /** The verification mail: the template with `name` and the code
      interpolated (the name is not escaped). */
  function OtpMail(email: string, name: string, otp: string): Email
  {
    Email(
      "Moiz Rehman <onboarding@resend.dev>",
      [email],
      None,
      "Verify your email - Contact Form",
      [ Literal(OtpMailOpening),
        Value(name),
        Literal(OtpMailCodeIntro),
        Value(otp),
        Literal(OtpMailClosing)
      ])
  }

  /** The `action === "send"` branch, for an address that passed the shape
      check. */
  function Send(store: Store, email: string, name: Option<string>, message: Option<string>,
                fileName: Option<string>, now: int, rand: real, dispatch: Dispatch): (s: Step)
    requires 0.0 <= rand < 1.0
    ensures !Truthy(name) || !Truthy(message) ==> s == Rejected(store, "Name and message are required")
    ensures Truthy(name) && Truthy(message) ==>
      && email in s.store
      && OtpCode.IsSixDigitCode(s.store[email].code)
      && s.store[email].expires == now + 600000
      && s.store[email].name == name.value
      && s.store[email].message == message.value
      && s.store[email].fileName == fileName
      && s.store == store[email := s.store[email]]
    ensures Truthy(name) && Truthy(message) && dispatch.Accepted? ==>
      && s.response == Response(200, Ack("OTP sent to your email"))
      && |s.outbox| == 1
      && s.outbox[0].to == [email]
      && Contains(Render(s.outbox[0].body), s.store[email].code)
    ensures Truthy(name) && Truthy(message) && dispatch.Threw? ==>
      && s.response == Response(500, ErrorBody(dispatch.message))
      && s.outbox == []
  {
    if !Truthy(name) || !Truthy(message) then
      Rejected(store, "Name and message are required")
    else
      var otp := OtpCode.GenerateOtp(rand);
      var record := OtpRecord(otp, now + ExpiryWindow, name.value, message.value, fileName);
      var store' := store[email := record];
      var mail := OtpMail(email, name.value, otp);
      RenderShowsFragment(mail.body, 3);
      match dispatch
      case Accepted => Step(store', Response(200, Ack("OTP sent to your email")), [mail])
      case Threw(error) => Step(store', Response(500, ErrorBody(error)), [])
  }

  /** The `action === "verify"` branch, for an address that passed the shape
      check. */
  function Verify(store: Store, email: string, code: Option<string>, now: int): (s: Step)
    ensures s.outbox == []
    ensures s.store == store || s.store == store - {email}
    ensures s.response.status == 200 <==>
      Truthy(code) && email in store && now <= store[email].expires && store[email].code == code.value
    ensures s.response.status == 200 ==>
      && s.response.body == Verified(FormData(store[email].name, email, store[email].message, store[email].fileName))
      && email !in s.store
    ensures !Truthy(code) ==> s == Rejected(store, "OTP code is required")
    ensures Truthy(code) && email !in store ==> s == Rejected(store, "No OTP found. Please request a new code.")
    ensures Truthy(code) && email in store && now > store[email].expires ==>
      && s.response == BadRequest("OTP expired. Please request a new code.")
      && email !in s.store
    ensures Truthy(code) && email in store && now <= store[email].expires && store[email].code != code.value ==>
      s == Rejected(store, "Invalid OTP code")
  {
    if !Truthy(code) then
      Rejected(store, "OTP code is required")
    else if email !in store then
      Rejected(store, "No OTP found. Please request a new code.")
    else
      var stored := store[email];
      if now > stored.expires then
        Step(store - {email}, BadRequest("OTP expired. Please request a new code."), [])
      else if stored.code != code.value then
        Rejected(store, "Invalid OTP code")
      else
        Step(store - {email},
             Response(200, Verified(FormData(stored.name, email, stored.message, stored.fileName))),
             [])
  }

  /** The handler for one POST request. `now` is `Date.now()`, `rand` is
      the `Math.random()` draw `send` uses, `dispatch` is what the gateway
      does with the mail. */
  function Handle(store: Store, req: Request, now: int, rand: real, dispatch: Dispatch): (s: Step)
    requires 0.0 <= rand < 1.0
    ensures !ValidEmailField(req.email) ==> s == Rejected(store, "Valid email is required")
    ensures ValidEmailField(req.email) && req.action != Some("send") && req.action != Some("verify") ==>
      s == Rejected(store, "Invalid action")
    ensures forall e :: (!Truthy(req.email) || e != req.email.value) ==> SameAt(store, s.store, e)
    ensures |s.outbox| <= 1
    ensures forall k :: 0 <= k < |s.outbox| ==> req.email.Some? && s.outbox[k].to == [req.email.value]
  {
    if !ValidEmailField(req.email) then
      Rejected(store, "Valid email is required")
    else if req.action == Some("send") then
      Send(store, req.email.value, req.name, req.message, req.fileName, now, rand, dispatch)
    else if req.action == Some("verify") then
      Verify(store, req.email.value, req.code, now)
    else
      Rejected(store, "Invalid action")
  }
}
