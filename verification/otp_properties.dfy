/** What the `send-otp` handler guarantees across calls: the per-address
    lifecycle, single use, strict expiry, retries after a mismatch, and the
    invariant every record in the store keeps. */
module OtpProperties {
  import opened Common
  import opened Http
  import opened Mail
  import EmailShape
  import OtpCode
  import opened OtpHandler

  function SendRequest(email: string, name: string, message: string, fileName: Option<string>): Request
  {
    Request(Some("send"), Some(email), Some(name), Some(message), fileName, None)
  }

  function VerifyRequest(email: string, code: string): Request
  {
    Request(Some("verify"), Some(email), None, None, None, Some(code))
  }

  /** Where one address stands: no pending code, or one pending record. */
  datatype Phase = NoCode | Pending(record: OtpRecord)

  function PhaseOf(store: Store, e: string): Phase
  {
    if e in store then Pending(store[e]) else NoCode
  }

  /** The lifecycle of one address under any request: NONE -> PENDING only
      by a `send` for it; PENDING -> NONE only by a `verify` for it that
      succeeds or finds the code expired; a record is replaced only by a
      `send` for it; a `verify` that leaves a record leaves it unchanged. */
  lemma PerAddressLifecycle(store: Store, req: Request, now: int, rand: real, dispatch: Dispatch, e: string)
    requires 0.0 <= rand < 1.0
    ensures var s := Handle(store, req, now, rand, dispatch);
      && (PhaseOf(store, e).NoCode? && PhaseOf(s.store, e).Pending? ==>
            && req.action == Some("send") && req.email == Some(e)
            && Truthy(req.name) && Truthy(req.message)
            && s.store[e].expires == now + ExpiryWindow
            && s.store[e].name == req.name.value && s.store[e].message == req.message.value)
      && (PhaseOf(store, e).Pending? && PhaseOf(s.store, e).NoCode? ==>
            && req.action == Some("verify") && req.email == Some(e)
            && (s.response.status == 200 || now > store[e].expires))
      && (PhaseOf(store, e).Pending? && PhaseOf(s.store, e).Pending? && s.store[e] != store[e] ==>
            req.action == Some("send") && req.email == Some(e))
      && (req.action == Some("verify") && e in s.store ==> e in store && s.store[e] == store[e])
  {
    var s := Handle(store, req, now, rand, dispatch);
    if PhaseOf(store, e).NoCode? && PhaseOf(s.store, e).Pending? {
      assert Truthy(req.email) && e == req.email.value;
      assert req.action == Some("send");
    }
  }

  /** Every record the store holds was issued by a valid `send`: its key has
      the email shape, its code is six digits, and its name and message are
      non-empty. */
  predicate WellFormedRecord(e: string, record: OtpRecord)
  {
    && EmailShape.IsEmailShape(e)
    && OtpCode.IsSixDigitCode(record.code)
    && record.name != ""
    && record.message != ""
  }

  ghost predicate WellFormedStore(store: Store)
  {
    forall e :: e in store ==> WellFormedRecord(e, store[e])
  }

  /** One request as the handler sees it. */
  datatype Event = Event(req: Request, now: int, rand: real, dispatch: Dispatch)

  /** The store after the handler has served `ev`. */
  function After(store: Store, ev: Event): Store
    requires 0.0 <= ev.rand < 1.0
  {
    Handle(store, ev.req, ev.now, ev.rand, ev.dispatch).store
  }

  /** A single request keeps every record of the store well formed. */
  lemma HandlePreservesWellFormed(store: Store, ev: Event)
    requires 0.0 <= ev.rand < 1.0
    requires WellFormedStore(store)
    ensures WellFormedStore(After(store, ev))
  {
    var req := ev.req;
    var s := Handle(store, req, ev.now, ev.rand, ev.dispatch);
    forall e | e in s.store ensures WellFormedRecord(e, s.store[e]) {
      if !(Truthy(req.email) && e == req.email.value) {
        assert SameAt(store, s.store, e);
      } else if req.action != Some("send") {
        assert e in store;
      }
    }
  }

  predicate ValidDraws(events: seq<Event>)
  {
    forall k :: 0 <= k < |events| ==> 0.0 <= events[k].rand < 1.0
  }

  lemma ValidDrawsTail(events: seq<Event>)
    requires |events| > 0 && ValidDraws(events)
    ensures ValidDraws(events[1..])
  {
    forall k | 0 <= k < |events| - 1 ensures 0.0 <= events[1..][k].rand < 1.0 {
      assert events[1..][k] == events[k + 1];
    }
  }

  /** The store after the handler has served `events` in order. */
  function Run(store: Store, events: seq<Event>): Store
    requires ValidDraws(events)
    decreases |events|
  {
    if |events| == 0 then store else Run(After(store, events[0]), events[1..])
  }

  /** Whatever requests arrive, the store only ever holds well-formed
      records. */
  lemma {:induction false} RunPreservesWellFormed(store: Store, events: seq<Event>)
    requires ValidDraws(events)
    requires WellFormedStore(store)
    ensures WellFormedStore(Run(store, events))
    decreases |events|
  {
    if |events| > 0 {
      var ev := events[0];
      HandlePreservesWellFormed(store, ev);
      ValidDrawsTail(events);
      RunPreservesWellFormed(After(store, ev), events[1..]);
    }
  }

  /** `ev` is a `send` request for address `e`. */
  predicate SendsFor(ev: Event, e: string)
  {
    ev.req.action == Some("send") && ev.req.email == Some(e)
  }

  /** Only a `send` for an address can give it a record. */
  lemma OnlySendCreates(store: Store, ev: Event, e: string)
    requires 0.0 <= ev.rand < 1.0
    requires e !in store && !SendsFor(ev, e)
    ensures e !in After(store, ev)
  {
    PerAddressLifecycle(store, ev.req, ev.now, ev.rand, ev.dispatch, e);
  }

  /** An address without a record gets none while no `send` for it
      arrives, whatever else happens. */
  lemma {:induction false} NoRecordWithoutSend(store: Store, events: seq<Event>, e: string)
    requires ValidDraws(events)
    requires e !in store
    requires forall k :: 0 <= k < |events| ==> !SendsFor(events[k], e)
    ensures e !in Run(store, events)
    decreases |events|
  {
    if |events| > 0 {
      OnlySendCreates(store, events[0], e);
      ValidDrawsTail(events);
      forall k | 0 <= k < |events| - 1 ensures !SendsFor(events[1..][k], e) {
        assert events[1..][k] == events[k + 1];
      }
      NoRecordWithoutSend(After(store, events[0]), events[1..], e);
    }
  }

  lemma SuccessConsumesRecord(store: Store, ev: Event)
    requires 0.0 <= ev.rand < 1.0
    requires ev.req.action == Some("verify") && ev.req.email.Some?
    requires Handle(store, ev.req, ev.now, ev.rand, ev.dispatch).response.status == 200
    ensures EmailShape.IsEmailShape(ev.req.email.value)
    ensures ev.req.email.value !in After(store, ev)
  {
  }

  lemma VerifyWithoutRecord(store: Store, e: string, code: string, now: int)
    requires EmailShape.IsEmailShape(e) && e !in store && code != ""
    ensures Handle(store, VerifyRequest(e, code), now, 0.0, Accepted).response
      == BadRequest("No OTP found. Please request a new code.")
  {
  }

  /** Single use across any history: once a code has been accepted for an
      address, every later `verify` for it finds nothing until a new `send`
      for it arrives, however many other requests come in between. */
  lemma ReplayAfterSuccessFails(store: Store, ev: Event, events: seq<Event>, code: string, now: int)
    requires 0.0 <= ev.rand < 1.0 && ValidDraws(events)
    requires ev.req.action == Some("verify") && ev.req.email.Some?
    requires Handle(store, ev.req, ev.now, ev.rand, ev.dispatch).response.status == 200
    requires forall k :: 0 <= k < |events| ==> !SendsFor(events[k], ev.req.email.value)
    requires code != ""
    ensures Handle(Run(After(store, ev), events), VerifyRequest(ev.req.email.value, code), now, 0.0, Accepted).response
      == BadRequest("No OTP found. Please request a new code.")
  {
    var e := ev.req.email.value;
    SuccessConsumesRecord(store, ev);
    NoRecordWithoutSend(After(store, ev), events, e);
    VerifyWithoutRecord(Run(After(store, ev), events), e, code, now);
  }

  /** `send` followed by `verify` with the mailed code, no more than ten
      minutes later (the boundary included), succeeds, hands back the form
      exactly, and leaves no record for the address. */
  lemma SendThenVerifySucceeds(store: Store, email: string, name: string, message: string,
                               fileName: Option<string>, now: int, rand: real, dispatch: Dispatch,
                               later: int, rand': real, dispatch': Dispatch)
    requires 0.0 <= rand < 1.0 && 0.0 <= rand' < 1.0
    requires EmailShape.IsEmailShape(email) && name != "" && message != ""
    requires later <= now + ExpiryWindow
    ensures var sent := Handle(store, SendRequest(email, name, message, fileName), now, rand, dispatch);
      && email in sent.store
      && var checked := Handle(sent.store, VerifyRequest(email, sent.store[email].code), later, rand', dispatch');
      && checked.response == Response(200, Verified(FormData(name, email, message, fileName)))
      && checked.store == store - {email}
  {
    var sent := Handle(store, SendRequest(email, name, message, fileName), now, rand, dispatch);
    assert sent.store == store[email := sent.store[email]];
    assert sent.store - {email} == store - {email};
  }

  /** The same `send` followed by `verify` more than ten minutes later: the
      code is reported expired, the record is dropped, and any further
      `verify` finds nothing. */
  lemma SendThenLateVerifyExpires(store: Store, email: string, name: string, message: string,
                                  fileName: Option<string>, now: int, rand: real, dispatch: Dispatch,
                                  later: int, code: string, after: int, code': string)
    requires 0.0 <= rand < 1.0
    requires EmailShape.IsEmailShape(email) && name != "" && message != ""
    requires later > now + ExpiryWindow
    requires code != "" && code' != ""
    ensures var sent := Handle(store, SendRequest(email, name, message, fileName), now, rand, dispatch);
      var checked := Handle(sent.store, VerifyRequest(email, code), later, rand, dispatch);
      var again := Handle(checked.store, VerifyRequest(email, code'), after, rand, dispatch);
      && checked.response == BadRequest("OTP expired. Please request a new code.")
      && email !in checked.store
      && again.response == BadRequest("No OTP found. Please request a new code.")
  {
  }

  /** A code is good once: after a successful `verify`, another `verify` for
      that address, with any code at any time, finds nothing. */
  lemma VerifyIsSingleUse(store: Store, email: string, code: string, now: int, rand: real,
                          dispatch: Dispatch, code': string, later: int)
    requires 0.0 <= rand < 1.0
    requires code' != ""
    requires Handle(store, VerifyRequest(email, code), now, rand, dispatch).response.status == 200
    ensures var first := Handle(store, VerifyRequest(email, code), now, rand, dispatch);
      Handle(first.store, VerifyRequest(email, code'), later, rand, dispatch).response
        == BadRequest("No OTP found. Please request a new code.")
  {
  }

  /** At `now == expires` a code is still good; only `now > expires` is
      expiry. */
  lemma ExpiryIsStrict(store: Store, email: string, now: int, rand: real, dispatch: Dispatch)
    requires 0.0 <= rand < 1.0
    requires WellFormedStore(store) && email in store
    requires now == store[email].expires
    ensures Handle(store, VerifyRequest(email, store[email].code), now, rand, dispatch).response.status == 200
    ensures Handle(store, VerifyRequest(email, store[email].code), now + 1, rand, dispatch).response
      == BadRequest("OTP expired. Please request a new code.")
  {
    assert WellFormedRecord(email, store[email]);
    assert |store[email].code| == 6;
  }

  /** A wrong code inside the window changes nothing, so the right code
      still works afterwards, up to the expiry instant. */
  lemma MismatchThenRetry(store: Store, email: string, wrong: string, now: int, later: int,
                          rand: real, dispatch: Dispatch)
    requires 0.0 <= rand < 1.0
    requires WellFormedStore(store) && email in store
    requires wrong != "" && wrong != store[email].code
    requires now <= later <= store[email].expires
    ensures var miss := Handle(store, VerifyRequest(email, wrong), now, rand, dispatch);
      && miss.response == BadRequest("Invalid OTP code")
      && miss.store == store
      && Handle(miss.store, VerifyRequest(email, store[email].code), later, rand, dispatch).response.status == 200
  {
    assert WellFormedRecord(email, store[email]);
    assert |store[email].code| == 6;
  }

  /** A second `send` for an address replaces the first record outright:
      the store looks as if the first `send` had never happened. */
  lemma SupersedingSend(store: Store, first: Request, second: Request, now: int, now': int,
                        rand: real, rand': real, dispatch: Dispatch, dispatch': Dispatch)
    requires 0.0 <= rand < 1.0 && 0.0 <= rand' < 1.0
    requires first.action == Some("send") && second.action == Some("send")
    requires first.email == second.email
    requires Truthy(second.name) && Truthy(second.message)
    ensures Handle(Handle(store, first, now, rand, dispatch).store, second, now', rand', dispatch').store
      == Handle(store, second, now', rand', dispatch').store
  {
    var s1 := Handle(store, first, now, rand, dispatch);
    if ValidEmailField(second.email) {
      var e := second.email.value;
      assert s1.store == store || s1.store == store[e := s1.store[e]];
    }
  }

  /** When the gateway throws, the caller gets a 500 but the record stays,
      so the code (never delivered) would still verify. */
  lemma DispatchFailureKeepsRecord(store: Store, email: string, name: string, message: string,
                                   fileName: Option<string>, now: int, rand: real, error: string)
    requires 0.0 <= rand < 1.0
    requires EmailShape.IsEmailShape(email) && name != "" && message != ""
    ensures var sent := Handle(store, SendRequest(email, name, message, fileName), now, rand, Threw(error));
      && sent.response == Response(500, ErrorBody(error))
      && sent.outbox == []
      && email in sent.store
      && Handle(sent.store, VerifyRequest(email, sent.store[email].code), now, rand, Accepted).response.status == 200
  {
  }

  /** The verification mail the handler sends puts the name into the HTML
      as it is: a name carrying markup reaches the rendered mail unescaped. */
  lemma OtpMailNameIsNotEscaped(store: Store, email: string, message: string, fileName: Option<string>,
                                now: int, rand: real)
    requires 0.0 <= rand < 1.0
    requires EmailShape.IsEmailShape(email) && message != ""
    ensures var s := Handle(store, SendRequest(email, "<script>", message, fileName), now, rand, Accepted);
      |s.outbox| == 1 && Contains(Render(s.outbox[0].body), "<script>")
  {
    var s := Handle(store, SendRequest(email, "<script>", message, fileName), now, rand, Accepted);
    RenderShowsFragment(s.outbox[0].body, 1);
  }
}
