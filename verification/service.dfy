/** `EmailService` of src/email_service.py: `send_email` prepares an email
    that is not READY yet, raises when it is still not valid, and otherwise
    makes one copy per recipient, each addressed to that recipient alone,
    stamped with the time and marked SENT; `send_multiple_emails` does this
    for a list, with `[]` in place of an email that raised.

    The service mutates the caller's email when it prepares it, so a call
    returns the email as it stands afterwards along with the outcome. The
    clock is a parameter: `clock(t)` is what the `t`-th reading of
    `datetime.now()` returns. */
module Service {
  import opened Results
  import opened Statuses
  import Addresses
  import Messages
  import DataclassMessages

  type Email = Messages.Email
  type Address = Addresses.Address
  type Instant = Messages.Instant

  /** Successive readings of the system clock. */
  type Clock = nat -> Instant

  /** Why a send fails: the `ValueError` for an email that is not valid, or
      the `UnboundLocalError` of the accumulator declared without a value. */
  datatype SendError = NotReady | UnboundAccumulator

  /** The caller's email after the call, and what the call returned or raised. */
  datatype Dispatch = Dispatch(email: Email, outcome: Result<seq<Email>, SendError>)

  /** `c` is a sent copy of `e` for recipient `r` at time `t`: the same subject,
      body, sender and short body, `r` as the only recipient, the date set,
      and status SENT. */
  predicate IsCopyFor(c: Email, e: Email, r: Address, t: Instant) {
    && c.subject == e.subject && c.body == e.body && c.sender == e.sender && c.shortBody == e.shortBody
    && c.recipients == [r] && c.date == Some(t) && c.status == Sent
  }

  /** One pass of the loop body: a copy of `e` with one recipient, the date,
      and SENT or FAILED depending on the original's status. */
  function CopyFor(e: Email, r: Address, t: Instant): Email {
    e.(recipients := [r], date := Some(t), status := if e.status == Ready then Sent else Failed)
  }

  /** The loop of `send_email`, continuing after the copies in `sent`; copy
      `i` reads the clock for the `(start + i)`-th time. */
  function FanOut(e: Email, clock: Clock, start: nat, sent: seq<Email>): (r: seq<Email>)
    requires |sent| <= |e.recipients|
    ensures |r| == |e.recipients|
    ensures r[..|sent|] == sent
    ensures forall i :: |sent| <= i < |r| ==> r[i] == CopyFor(e, e.recipients[i], clock(start + i))
    decreases |e.recipients| - |sent|
  {
    if |sent| == |e.recipients| then sent
    else
      var next := sent + [CopyFor(e, e.recipients[|sent|], clock(start + |sent|))];
      var r := FanOut(e, clock, start, next);
      assert r[..|sent|] == r[..|next|][..|sent|];
      r
  }

  /** The part of `send_email` after the preparation step: raise unless the
      email is valid, otherwise one sent copy per recipient, in order. */
  function Deliver(email: Email, clock: Clock, start: nat): (d: Dispatch)
    ensures d.email == email
    ensures d.outcome.Err? <==> email.status != Ready
    ensures d.outcome.Err? ==> d.outcome.error == NotReady
    ensures d.outcome.Ok? ==> |d.outcome.value| == |email.recipients|
    ensures d.outcome.Ok? ==> forall i :: 0 <= i < |email.recipients| ==>
                                IsCopyFor(d.outcome.value[i], email, email.recipients[i], clock(start + i))
  {
    if !Messages.IsValid(email) then Dispatch(email, Err(NotReady))
    else Dispatch(email, Ok(FanOut(email, clock, start, [])))
  }

  /** `send_email`, with the accumulator starting empty: an email that is not
      READY is prepared first, and the copies follow the prepared email. */
  function SendEmail(e: Email, clock: Clock, start: nat): (d: Dispatch)
    ensures d.email == (if e.status == Ready then e else DataclassMessages.Prepare(e))
    ensures d.outcome.Err? <==> d.email.status != Ready
    ensures d.outcome.Err? ==> d.outcome.error == NotReady
    ensures e.status != Ready ==> (d.outcome.Ok? <==> Messages.Complete(e))
    ensures d.outcome.Ok? ==> |d.outcome.value| == |e.recipients|
    ensures d.outcome.Ok? ==> forall i :: 0 <= i < |e.recipients| ==>
                                IsCopyFor(d.outcome.value[i], d.email, e.recipients[i], clock(start + i))
  {
    if e.status == Ready then Deliver(e, clock, start)
    else
      var email := DataclassMessages.Prepare(e);
      assert email.recipients == e.recipients;
      Deliver(email, clock, start)
  }

  /** Python's `send_email` as written: `sent_emails: []` only annotates the
      name, so the first `append`, or the `return` when there is no
      recipient, raises. */
  function SendEmailAsWritten(e: Email): (d: Dispatch)
    ensures d.outcome.Err?
    ensures d.email == (if e.status == Ready then e else DataclassMessages.Prepare(e))
    ensures d.outcome == Err(NotReady) <==> d.email.status != Ready
  {
    var email := if e.status != Ready then DataclassMessages.Prepare(e) else e;
    if !Messages.IsValid(email) then Dispatch(email, Err(NotReady))
    else Dispatch(email, Err(UnboundAccumulator))
  }

  /** The number of copies in a list of results, summed from the front. */
  function CopyCount(results: seq<seq<Email>>): nat {
    if |results| == 0 then 0 else CopyCount(results[..|results| - 1]) + |results[|results| - 1]|
  }

  /** What one entry of `send_multiple_emails` holds: the copies when the send
      returned, `[]` when it raised. */
  function Entry(o: Result<seq<Email>, SendError>): seq<Email> {
    if o.Ok? then o.value else []
  }

  /** Entry `k` of a `send_multiple_emails` call: the email and the result
      that sending `emails[k]` leaves, with the clock at the reading where the
      copies of the earlier emails stopped. */
  predicate HandledAt(emails: seq<Email>, after: seq<Email>, results: seq<seq<Email>>, clock: Clock, start: nat, k: nat)
    requires k < |emails| && k < |after| && k < |results|
  {
    var d := SendEmail(emails[k], clock, start + CopyCount(results[..k]));
    after[k] == d.email && results[k] == Entry(d.outcome)
  }

  /** `send_multiple_emails`: the emails after the call, and one entry per
      email, in order; the clock readings continue from one email to the next. */
  method SendMultiple(emails: seq<Email>, clock: Clock, start: nat) returns (after: seq<Email>, results: seq<seq<Email>>)
    ensures |after| == |emails| && |results| == |emails|
    ensures forall i :: 0 <= i < |emails| ==> HandledAt(emails, after, results, clock, start, i)
    ensures forall i :: 0 <= i < |emails| ==> (results[i] == [] <==> after[i].status != Ready || emails[i].recipients == [])
  {
    after, results := [], [];
    var tick := start;
    for i := 0 to |emails|
      invariant |after| == i && |results| == i
      invariant tick == start + CopyCount(results)
      invariant forall k :: 0 <= k < i ==> HandledAt(emails, after, results, clock, start, k)
    {
      var d := SendEmail(emails[i], clock, tick);
      HandledStep(emails, after, results, clock, start, tick);
      after, results := after + [d.email], results + [Entry(d.outcome)];
      tick := tick + |Entry(d.outcome)|;
    }
    forall i | 0 <= i < |emails|
      ensures results[i] == [] <==> after[i].status != Ready || emails[i].recipients == []
    {
      assert HandledAt(emails, after, results, clock, start, i);
      EntryEmptyIff(emails[i], clock, start + CopyCount(results[..i]));
    }
  }

  /** One more pass of the loop of `send_multiple_emails` keeps every entry
      so far as it was and adds the entry of the next email. */
  lemma {:induction false} HandledStep(emails: seq<Email>, after: seq<Email>, results: seq<seq<Email>>,
                                       clock: Clock, start: nat, tick: nat)
    requires |after| == |results| < |emails|
    requires tick == start + CopyCount(results)
    requires forall k :: 0 <= k < |results| ==> HandledAt(emails, after, results, clock, start, k)
    ensures var d := SendEmail(emails[|results|], clock, tick);
            && tick + |Entry(d.outcome)| == start + CopyCount(results + [Entry(d.outcome)])
            && forall k :: 0 <= k <= |results| ==> HandledAt(emails, after + [d.email], results + [Entry(d.outcome)], clock, start, k)
  {
    var i := |results|;
    var d := SendEmail(emails[i], clock, tick);
    var after', results' := after + [d.email], results + [Entry(d.outcome)];
    CopyCountSnoc(results, Entry(d.outcome));
    forall k | 0 <= k < i
      ensures HandledAt(emails, after', results', clock, start, k)
    {
      HandledAtExtend(emails, after, results, after', results', clock, start, k);
    }
    HandledAtLast(emails, after', results', clock, start, tick);
  }

  /** Adding an entry at the end adds its copies to the count. */
  lemma {:induction false} CopyCountSnoc(results: seq<seq<Email>>, entry: seq<Email>)
    ensures CopyCount(results + [entry]) == CopyCount(results) + |entry|
  {
    assert (results + [entry])[..|results|] == results;
  }

  /** An entry already handled stays handled when the lists grow at the end. */
  lemma {:induction false} HandledAtExtend(emails: seq<Email>, after: seq<Email>, results: seq<seq<Email>>,
                                           after': seq<Email>, results': seq<seq<Email>>, clock: Clock, start: nat, k: nat)
    requires k < |emails| && k < |after| <= |after'| && k < |results| <= |results'|
    requires after <= after' && results <= results'
    requires HandledAt(emails, after, results, clock, start, k)
    ensures HandledAt(emails, after', results', clock, start, k)
  {
    assert results'[..k] == results[..k];
    assert after'[k] == after[k] && results'[k] == results[k];
    var d := SendEmail(emails[k], clock, start + CopyCount(results[..k]));
    assert after[k] == d.email && results[k] == Entry(d.outcome);
  }

  /** The entry just added is the one the send of its email leaves. */
  lemma {:induction false} HandledAtLast(emails: seq<Email>, after: seq<Email>, results: seq<seq<Email>>,
                                         clock: Clock, start: nat, tick: nat)
    requires 0 < |after| == |results| <= |emails|
    requires tick == start + CopyCount(results[..|results| - 1])
    requires var d := SendEmail(emails[|results| - 1], clock, tick);
             after[|after| - 1] == d.email && results[|results| - 1] == Entry(d.outcome)
    ensures HandledAt(emails, after, results, clock, start, |results| - 1)
  {
  }

  /** An entry is empty exactly when the send raised or there was no recipient. */
  lemma {:induction false} EntryEmptyIff(e: Email, clock: Clock, t: nat)
    ensures var d := SendEmail(e, clock, t);
            Entry(d.outcome) == [] <==> d.email.status != Ready || e.recipients == []
  {
    var d := SendEmail(e, clock, t);
    if d.outcome.Ok? {
      assert |Entry(d.outcome)| == |e.recipients|;
    }
  }

  /** An outcome that `except ValueError` does not catch. */
  predicate Escapes(o: Result<seq<Email>, SendError>) {
    o.Err? && o.error != NotReady
  }

  /** The loop of `send_multiple_emails` over the outcomes of its sends: the
      copies of a send that returned, `[]` for a `ValueError`, and the first
      other exception ends the whole call. */
  function CollectOutcomes(outcomes: seq<Result<seq<Email>, SendError>>): (r: Result<seq<seq<Email>>, SendError>)
    ensures r.Ok? <==> forall i :: 0 <= i < |outcomes| ==> !Escapes(outcomes[i])
    ensures r.Ok? ==> |r.value| == |outcomes| && forall i :: 0 <= i < |outcomes| ==> r.value[i] == Entry(outcomes[i])
    ensures r.Err? ==> exists i :: 0 <= i < |outcomes| && Escapes(outcomes[i]) && outcomes[i] == Err(r.error)
                                   && forall j :: 0 <= j < i ==> !Escapes(outcomes[j])
    decreases |outcomes|
  {
    if |outcomes| == 0 then Ok([])
    else if Escapes(outcomes[0]) then Err(outcomes[0].error)
    else
      var tail := outcomes[1..];
      assert forall i :: 1 <= i < |outcomes| ==> outcomes[i] == tail[i - 1];
      match CollectOutcomes(tail)
      case Err(e) =>
        var k :| 0 <= k < |tail| && Escapes(tail[k]) && tail[k] == Err(e) && forall j :: 0 <= j < k ==> !Escapes(tail[j]);
        assert outcomes[k + 1] == tail[k];
        assert forall j :: 0 <= j < k + 1 ==> !Escapes(outcomes[j]);
        Err(e)
      case Ok(rest) =>
        var r: seq<seq<Email>> := [Entry(outcomes[0])] + rest;
        assert forall i :: 1 <= i < |outcomes| ==> r[i] == rest[i - 1];
        Ok(r)
  }

  /** What the written `send_email` returns or raises for each email. */
  function AsWrittenOutcomes(emails: seq<Email>): (os: seq<Result<seq<Email>, SendError>>)
    ensures |os| == |emails|
    ensures forall i :: 0 <= i < |emails| ==> os[i] == SendEmailAsWritten(emails[i]).outcome
  {
    seq(|emails|, i requires 0 <= i < |emails| => SendEmailAsWritten(emails[i]).outcome)
  }

  /** `send_multiple_emails` as written: the `UnboundLocalError` of
      `send_email` is not a `ValueError`, so the first email that passes the
      validity check ends the whole call, and the call returns only when
      every email fails the check. */
  function SendMultipleAsWritten(emails: seq<Email>): (r: Result<seq<seq<Email>>, SendError>)
    ensures r.Ok? <==> forall i :: 0 <= i < |emails| ==> SendEmailAsWritten(emails[i]).email.status != Ready
    ensures r.Ok? ==> |r.value| == |emails| && forall i :: 0 <= i < |emails| ==> r.value[i] == []
    ensures r.Err? ==> r.error == UnboundAccumulator
  {
    var os := AsWrittenOutcomes(emails);
    forall i | 0 <= i < |emails| ensures Escapes(os[i]) <==> SendEmailAsWritten(emails[i]).email.status == Ready {
      EscapesIffPassed(emails[i]);
    }
    CollectOutcomes(os)
  }

  /** The written `send_email` raises something other than a `ValueError`
      exactly when the email passes the validity check, and then it is the
      accumulator error. */
  lemma {:induction false} EscapesIffPassed(e: Email)
    ensures Escapes(SendEmailAsWritten(e).outcome) <==> SendEmailAsWritten(e).email.status == Ready
    ensures Escapes(SendEmailAsWritten(e).outcome) ==> SendEmailAsWritten(e).outcome.error == UnboundAccumulator
  {
  }

  // ---------------------------------------------------------------- lemmas

  /** The written `send_email` leaves the caller's email as the corrected one
      does, and raises the accumulator error exactly when the corrected one
      returns copies. */
  lemma {:induction false} AsWrittenRaisesWhereCorrectedSends(e: Email, clock: Clock, start: nat)
    ensures SendEmailAsWritten(e).email == SendEmail(e, clock, start).email
    ensures SendEmailAsWritten(e).outcome == Err(UnboundAccumulator) <==> SendEmail(e, clock, start).outcome.Ok?
  {
  }

  /** With a clock that never runs backwards, the copies of one send are
      dated in recipient order. */
  lemma {:induction false} CopiesDatedInOrder(e: Email, clock: Clock, start: nat, i: nat, j: nat)
    requires forall a: nat, b: nat :: a <= b ==> clock(a) <= clock(b)
    requires SendEmail(e, clock, start).outcome.Ok?
    requires i <= j < |e.recipients|
    ensures SendEmail(e, clock, start).outcome.value[i].date.value <= SendEmail(e, clock, start).outcome.value[j].date.value
  {
    var copies := SendEmail(e, clock, start).outcome.value;
    assert IsCopyFor(copies[i], SendEmail(e, clock, start).email, e.recipients[i], clock(start + i));
    assert IsCopyFor(copies[j], SendEmail(e, clock, start).email, e.recipients[j], clock(start + j));
  }

  /** The recipients of the copies, taken in order, are the email's recipients. */
  lemma {:induction false} CopiesCoverRecipients(e: Email, clock: Clock, start: nat)
    requires SendEmail(e, clock, start).outcome.Ok?
    ensures var copies := SendEmail(e, clock, start).outcome.value;
            forall i :: 0 <= i < |copies| ==> copies[i].recipients == [e.recipients[i]]
  {
  }

  /** A draft with subject, body, sender and a recipient is prepared and sent;
      one that lacks any of them raises and yields nothing. */
  lemma {:induction false} DraftIsSentIffComplete(e: Email, clock: Clock, start: nat)
    requires e.status == Draft
    ensures SendEmail(e, clock, start).outcome.Ok? <==> Messages.Complete(e)
    ensures SendEmail(e, clock, start).outcome.Ok? ==> |SendEmail(e, clock, start).outcome.value| > 0
  {
  }

  /** An email marked READY by its caller is sent as it is, without cleaning,
      even with no recipient at all. */
  lemma {:induction false} ReadyIsSentUnchanged(e: Email, clock: Clock, start: nat)
    requires e.status == Ready
    ensures SendEmail(e, clock, start).email == e
    ensures SendEmail(e, clock, start).outcome.Ok?
    ensures e.recipients == [] ==> SendEmail(e, clock, start).outcome.value == []
  {
  }

  /** An address whose fields need no computation. */
  function SampleAddress(): Address {
    Addresses.Address("a@x.com", "a@x.com")
  }

  /** A READY email with no recipient: the loop body never runs, so the
      written service raises at `return sent_emails` while the corrected one
      returns no copies. */
  lemma {:induction false} UnboundAccumulatorCounterexample(clock: Clock)
    ensures var e := Messages.Email("Hi", "Hello", Some(SampleAddress()), [], Ready, None, "Hello");
            && SendEmailAsWritten(e).outcome == Err(UnboundAccumulator)
            && SendEmail(e, clock, 0).outcome == Ok([])
  {
  }
}
