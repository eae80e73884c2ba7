# Portfolio contact backend: OTP handler and contact relay, modelled in Dafny

The site's backend is two serverless HTTP handlers.

- `send-otp` keeps a process-wide map from an email address to one pending
  one-time-passcode record: code, expiry, name, message and an optional file
  name. `send` validates the request, overwrites the record for the address
  with a fresh six-digit code that expires ten minutes later, and mails the
  code. `verify` looks the record up. It ends in one of four ways: not found,
  expired (the record is deleted), wrong code (the record is kept), or success
  (the record is deleted and the stored form data is returned).
- `send-contact-email` checks that name, email and message are present and
  that the email has the right shape. It HTML-escapes the user text and turns
  line feeds in the message into `<br>`. It then sends a notification to the
  site owner and a confirmation to the sender, in that order.

The model is functional. The OTP handler is a pure step function
`Handle(store, request, now, rand, dispatch) -> Step(store', response, outbox)`:

- `now` stands for `Date.now()`;
- `rand` stands for the `Math.random()` draw;
- `dispatch` says whether the mail gateway accepted the mail or threw.

The contact handler is `Relay(request) -> Relayed(response, outbox)`. Mail
bodies are kept as the sequence of fragments their template literal is made
of: template text (`Literal`) and interpolated values (`Value`). This lets the
proofs tell markup the template fixes apart from text a request supplies.

Modules, one per concern:

- `Common`: optional fields and JavaScript truthiness.
- `EmailShape`: the shared email regex.
- `Html`: `escapeHtml`, the newline rewrite and their decoders.
- `Mail`: outgoing mail and rendering.
- `Http`: response bodies.
- `OtpCode`: `generateOTP`.
- `OtpHandler`: the `send-otp` handler.
- `OtpProperties`: properties of the OTP handler across several calls.
- `ContactRelay`: the `send-contact-email` handler.
- `SharedValidation`: how both handlers apply the same email check.

The model follows the code as written. In particular:

- There is no rate limit (no 429 answer), no durable row store and no
  `createdAt` in this code. The store is an in-memory map.
- The OTP mail puts `name` into its HTML unescaped.
  `OtpProperties.OtpMailNameIsNotEscaped` shows a name containing `<script>`
  reaching the rendered mail.
- Field presence is JavaScript truthiness, with no trimming. A name or
  message made only of blanks is accepted (`ContactRelay.BlankFieldsAccepted`).
- An absent `fileName` is absent in the returned form data. It is not `null`.

## Model

| member | source | states |
|---|---|---|
| EmailShape.IsEmailShapeMatchesRegex | supabase/functions/send-otp/index.ts:36-37 | The executable check accepts a string iff it splits as `A@B.C` with `A`, `B`, `C` non-empty runs of non-whitespace, non-`@` characters. That is: no whitespace, exactly one `@`, a non-empty local part, and a `.` in the domain that is neither first nor last |
| EmailShape.ShapeImpliesRegex | supabase/functions/send-contact-email/index.ts:48-49 | Every string the check accepts matches `^[^\s@]+@[^\s@]+\.[^\s@]+$` |
| EmailShape.RegexImpliesShape | supabase/functions/send-contact-email/index.ts:48-49 | Every string the regex matches passes the check |
| EmailShape.NoDomainDotRejected | supabase/functions/send-contact-email/index.ts:48 | `"a@b"` does not have the email shape |
| EmailShape.NoAtRejected | supabase/functions/send-contact-email/index.ts:48 | `"not-an-email"` does not have the email shape |
| EmailShape.EmptyRejected | supabase/functions/send-contact-email/index.ts:48 | `""` does not have the email shape |
| EmailShape.PlainAddressAccepted | supabase/functions/send-contact-email/index.ts:48 | `"a@b.com"` has the email shape |
| Html.EscapeHtmlIsEscaped | supabase/functions/send-contact-email/index.ts:11-20 | The output of `escapeHtml` contains no `<`, `>`, `"` or `'`, and every `&` in it begins one of `&amp; &lt; &gt; &quot; &#039;` |
| Html.EscapeHtmlIdentity | supabase/functions/send-contact-email/index.ts:12-19 | `escapeHtml(s) == s` iff `s` holds none of `& < > " '` |
| Html.EscapeHtmlAppend | supabase/functions/send-contact-email/index.ts:19 | `escapeHtml` maps each character independently, so it distributes over concatenation |
| Html.UnescapeEscapeHtml | supabase/functions/send-contact-email/index.ts:12-19 | A decoder of the five references inverts `escapeHtml`, so escaping is injective |
| Html.SafeMessageAppend | supabase/functions/send-contact-email/index.ts:61 | `safeMessage` distributes over concatenation of the message |
| Html.SafeMessageHasNoNewline | supabase/functions/send-contact-email/index.ts:61 | `safeMessage` contains no line feed |
| Html.SafeMessageIsInert | supabase/functions/send-contact-email/index.ts:61 | In `safeMessage` every `<` opens a `<br>`, every `>` closes one, there are no quotes, and every `&` begins a character reference |
| Html.RestoreSafeMessage | supabase/functions/send-contact-email/index.ts:61 | Reading each `<br>` back as a line feed gives exactly `escapeHtml(message)`, so the only `<br>` are the inserted ones |
| Html.SafeMessageRoundTrip | supabase/functions/send-contact-email/index.ts:61 | Decoding `safeMessage` gives back the original message |
| OtpCode.DrawCode | supabase/functions/send-otp/index.ts:24 | `Math.floor(100000 + r * 900000)` lies in [100000, 999999] for every `0 <= r < 1` |
| OtpCode.GenerateOtp | supabase/functions/send-otp/index.ts:23-25 | The code is six decimal digits with no leading zero, and the digits denote the drawn integer in [100000, 999999] |
| OtpCode.DecimalRoundTrip | supabase/functions/send-otp/index.ts:24 | Reading back the decimal string of `n` gives `n` |
| OtpHandler.Send | supabase/functions/send-otp/index.ts:44-86 | With name or message absent or empty: 400 "Name and message are required", store unchanged, no mail. Otherwise `store[email]` becomes a record with a six-digit code, `expires = now + 600000` and the given name, message and fileName. Any prior record is replaced and every other key is unchanged. If the gateway accepts, the answer is 200 and exactly one mail goes to `[email]` with the code in its HTML. If the gateway throws, the answer is 500 with the error message and the new record stays |
| OtpHandler.Verify | supabase/functions/send-otp/index.ts:88-134 | Verify sends no mail and either keeps the store or deletes only `email`. It answers 200 iff a code is given, a record exists, `now <= expires` and the codes are equal. Then it returns the stored name, message and fileName with the request email, and the record is gone. Otherwise: missing code gives "OTP code is required" and no record gives "No OTP found...", both with the store unchanged. `now > expires` gives "OTP expired..." and deletes the record. A mismatch gives "Invalid OTP code" with the store unchanged |
| OtpHandler.Handle | supabase/functions/send-otp/index.ts:33-139 | An absent, empty or malformed email gives 400 "Valid email is required" for every action, with the store unchanged and no mail. An action other than send/verify gives 400 "Invalid action" with no mutation. Keys other than the request email are never touched. At most one mail goes out, and only to the request email |
| OtpProperties.PerAddressLifecycle | supabase/functions/send-otp/index.ts:56-122 | Per address, NONE -> PENDING happens only by a `send` for it that passes validation, whatever the gateway does, with a fresh record. PENDING -> NONE happens only by a `verify` for it that succeeds or finds the code expired. A record is replaced only by a `send` for it. A `verify` that leaves a record leaves it unchanged |
| OtpProperties.HandlePreservesWellFormed | supabase/functions/send-otp/index.ts:37-56 | Every record in the store has an email-shaped key, a six-digit code, and a non-empty name and message. One request preserves this |
| OtpProperties.RunPreservesWellFormed | supabase/functions/send-otp/index.ts:12 | The same invariant holds after any sequence of requests |
| OtpProperties.SendThenVerifySucceeds | supabase/functions/send-otp/index.ts:52-133 | After `send`, `verify` with the stored code at any time up to `now + 600000` inclusive answers 200 with exactly the sent name, email, message and fileName. It leaves no record for the address |
| OtpProperties.SendThenLateVerifyExpires | supabase/functions/send-otp/index.ts:105-111 | After `send`, `verify` later than `now + 600000` answers "OTP expired..." and deletes the record. A further `verify` answers "No OTP found..." |
| OtpProperties.VerifyIsSingleUse | supabase/functions/send-otp/index.ts:120-122 | After a successful `verify`, another `verify` for that address with any code at any time answers "No OTP found..." |
| OtpProperties.NoRecordWithoutSend | supabase/functions/send-otp/index.ts:56 | An address with no record gets none over any sequence of requests that contains no `send` for it |
| OtpProperties.ReplayAfterSuccessFails | supabase/functions/send-otp/index.ts:120-122 | Once a code has been accepted for an address, every later `verify` for it answers "No OTP found..." until a new `send` for it, whatever other requests come in between |
| OtpProperties.ExpiryIsStrict | supabase/functions/send-otp/index.ts:105 | At `now == expires` the right code still succeeds. At `expires + 1` it is reported expired |
| OtpProperties.MismatchThenRetry | supabase/functions/send-otp/index.ts:113-118 | A wrong code inside the window answers "Invalid OTP code" and leaves the store as it was, so the right code still succeeds up to expiry |
| OtpProperties.SupersedingSend | supabase/functions/send-otp/index.ts:56 | A second valid `send` for an address leaves the store exactly as if the first had never happened |
| OtpProperties.DispatchFailureKeepsRecord | supabase/functions/send-otp/index.ts:56-61 | When the gateway throws, the answer is 500 and nothing is sent. The record stays, and its code would still verify |
| OtpProperties.OtpMailNameIsNotEscaped | supabase/functions/send-otp/index.ts:67 | A valid `send` whose name is `<script>` hands the gateway exactly one mail, and `<script>` appears verbatim in its rendered HTML: the name is not escaped |
| ContactRelay.Relay | supabase/functions/send-contact-email/index.ts:39-105 | Absent or empty name, email or message gives 400 "Name, email, and message are required", checked before the email shape. With the fields present, a malformed email gives 400 "Invalid email format". Mail is sent iff both checks pass. Then exactly two mails go out, the owner notification first and the confirmation second. The first goes to the owner address, with `reply_to` set to the raw email and subject `"New Contact: " + escapeHtml(name)`. The second goes to `[email]`. The answer is 200 |
| ContactRelay.MailsAreInjectionFree | supabase/functions/send-contact-email/index.ts:60-98 | In both mails every interpolated value is inert HTML, except for the `<br>` tags inserted into the message. The name in the owner subject is escaped |
| ContactRelay.AttachmentParagraphIffFileName | supabase/functions/send-contact-email/index.ts:62-76 | The owner HTML differs from the no-attachment HTML iff `fileName` is present and non-empty. When it is, the HTML shows the escaped file name |
| ContactRelay.MailsEchoSubmission | supabase/functions/send-contact-email/index.ts:72-94 | Both mails carry `safeName` and `safeMessage`, and decoding them gives back exactly the submitted name and message |
| ContactRelay.MissingFieldReportedFirst | supabase/functions/send-contact-email/index.ts:39-55 | An empty email, or a missing name with a malformed email, gives the missing-field error rather than the format error |
| ContactRelay.MalformedEmailExamples | supabase/functions/send-contact-email/index.ts:48-55 | With the other fields present, `"not-an-email"` and `"a@b"` give 400 "Invalid email format" |
| ContactRelay.BlankFieldsAccepted | supabase/functions/send-contact-email/index.ts:39 | Blank-only name and message pass, because nothing is trimmed |
| SharedValidation.BothEndpointsShareTheShape | supabase/functions/send-otp/index.ts:36-42 | For a non-empty address, `send-otp` answers "Valid email is required" iff the address fails the shape. Likewise `send-contact-email` answers "Invalid email format" iff it fails. On failure neither handler mutates state or sends mail |
| SharedValidation.OtpRejectsExampleShapes | supabase/functions/send-otp/index.ts:37-42 | `"a@b"`, `"not-an-email"`, `""` and a missing email are rejected by `send-otp` for every action, with the store unchanged |

## Left out

- HTTP plumbing is not modelled: `serve`, the OPTIONS preflight, CORS and content-type headers.
- JSON parsing of the body is not modelled. A body that fails to parse lands in the 500 branch. Fields are `Option<string>`, so non-string JSON values are not modelled.
- `console.*` logging is left out. It has no effect on the result.
- The mail gateway is an opaque effect. For `send-otp` it either accepts the mail, which lands in the outbox, or throws. Delivery is not modelled.
- `ContactRelay.Relay`: gateway failure in `send-contact-email` is not modelled. The relay assumes both mails are accepted, so its 500 branch (lines 106-112) and any effect of a failed first send on the second are left out, because the SDK may either throw or return an error object.
- `Math.random()` is the parameter `rand`, a real in [0, 1). `Date.now()` is the parameter `now`. Floating-point rounding in `100000 + rand * 900000` is not modelled: the model uses exact real arithmetic.
- The `RESEND_API_KEY` environment lookup is left out. It has no effect on the handlers' logic.
- Concurrency on the process-wide `otpStore` map is not modelled. Each request is one atomic step. The loss of the map on restart is also not modelled.
- Rate limiting, a durable row store and HTML-escaping of `name` in the OTP mail do not exist in this code. They are not added.
- `EmailShape.IsWhitespace` lists the characters JavaScript's `\s` matches. No lemma over all inputs depends on the list; the example lemmas rely on their characters not being in it.
- Strings are Dafny `string`, a sequence of Unicode characters, while a JavaScript string is a sequence of UTF-16 code units, so a request holding a lone surrogate cannot be represented. The regex, `escapeHtml`, the `\n` rewrite and the map keys treat both forms alike, so no behaviour covered here changes.
