/**
 * The contact form's submit path: validation, then one request whose reply
 * is classified into success or failure. The submit button is busy while
 * the request is out and gets its original markup and enabled state back on
 * every path; success opens the success modal and resets the form, failure
 * shows one fixed error notification.
 */
module Submission {
  import opened Wrappers
  import opened Validation
  import opened Notifications

  /** A JSON value, as `response.json()` produces it. */
  datatype Json =
    | Null
    | Bool(b: bool)
    | Number(n: real)
    | Str(s: string)
    | Array(items: seq<Json>)
    | Object(fields: map<string, Json>)

  /**
   * How the request settles: the transport fails, or a response arrives with
   * its `ok` flag and its body, `None` when the body is not JSON.
   */
  datatype Reply = TransportFailure | Response(ok: bool, body: Option<Json>)

  /** Why a submission failed; only the console sees it. */
  datatype Cause = Network | BadStatus | BadBody | Declined

  datatype Outcome = Delivered | Failed(cause: Cause)

  /** JavaScript truthiness of a JSON value. */
  predicate Truthy(v: Json) {
    match v
    case Null => false
    case Bool(b) => b
    case Number(n) => n != 0.0
    case Str(s) => s != ""
    case Array(_) => true
    case Object(_) => true
  }

  /** `result.success`: `None` when reading it throws (the body is `null`), `Some(None)` when it is `undefined`. */
  function SuccessField(body: Json): Option<Option<Json>> {
    match body
    case Null => None
    case Object(fields) => Some(if "success" in fields then Some(fields["success"]) else None)
    case _ => Some(None)
  }

  /** The promise chain's verdict on one reply. */
  function Classify(reply: Reply): (r: Outcome)
    ensures r == Delivered ==> reply.Response? && reply.ok && reply.body.Some? && reply.body.value.Object?
  {
    match reply
    case TransportFailure => Failed(Network)
    case Response(ok, body) =>
      if !ok then Failed(BadStatus)
      else if body.None? then Failed(BadBody)
      else match SuccessField(body.value)
        case None => Failed(BadBody)
        case Some(success) => if success.Some? && Truthy(success.value) then Delivered else Failed(Declined)
  }

  /** A reply is a success exactly when the status is ok and the body's `success` member is truthy. */
  lemma ClassifyDelivered(reply: Reply)
    ensures Classify(reply) == Delivered <==>
      && reply.Response? && reply.ok && reply.body.Some? && reply.body.value.Object?
      && "success" in reply.body.value.fields && Truthy(reply.body.value.fields["success"])
  {
  }

  /** A status that is not ok fails whatever the body says; `success: true` with an ok status succeeds. */
  lemma ClassifyCases(body: Option<Json>, fields: map<string, Json>)
    ensures Classify(Response(false, body)) == Failed(BadStatus)
    ensures Classify(Response(true, Some(Object(fields["success" := Bool(true)])))) == Delivered
    ensures Classify(Response(true, Some(Object(fields["success" := Bool(false)])))) == Failed(Declined)
    ensures "success" !in fields ==> Classify(Response(true, Some(Object(fields)))) == Failed(Declined)
  {
  }

  const ErrorMessage: string := "Sorry, there was an error sending your message. Please try again or email us directly."

  /** Stands for the spinner markup the button shows while busy; its exact HTML is presentation. */
  const BusyHtml: string := "Sending..."

  /** The JSON payload: each form entry by name (`FormData` entries of the snapshot). */
  function Payload(controls: Snapshot): (p: map<string, string>)
    ensures forall name :: name in p <==> name in controls && controls[name].Some?
    ensures forall name :: name in p ==> p[name] == controls[name].value
  {
    map name | name in controls && controls[name].Some? :: controls[name].value
  }

  /** What a request in flight remembers: the button's markup before it went busy, and what was sent. */
  datatype Pending = Pending(originalHtml: string, payload: map<string, string>)

  class ContactForm {
    /** The form's named controls and their current entries. */
    var controls: Snapshot
    /** What `form.reset()` puts back. */
    const defaults: Snapshot
    var buttonHtml: string
    var buttonDisabled: bool
    var modalOpen: bool
    /** Whether the success modal exists, so that `showSuccessModal` was installed. */
    const modalInstalled: bool
    const notices: NotificationCenter

    ghost predicate Valid()
      reads this, notices
    {
      notices.Valid()
    }

    constructor (controls: Snapshot, defaults: Snapshot, buttonHtml: string, modalInstalled: bool, notices: NotificationCenter)
      requires notices.Valid()
      ensures Valid()
      ensures this.controls == controls && this.defaults == defaults && this.buttonHtml == buttonHtml
      ensures !buttonDisabled && !modalOpen && this.modalInstalled == modalInstalled && this.notices == notices
    {
      this.controls := controls;
      this.defaults := defaults;
      this.buttonHtml := buttonHtml;
      this.buttonDisabled := false;
      this.modalOpen := false;
      this.modalInstalled := modalInstalled;
      this.notices := notices;
    }

    /**
     * The first half of `submitForm`: remember the button's markup, make it
     * busy, then copy the form's entries into the payload one by one.
     */
    method BeginSubmit() returns (p: Pending)
      requires Valid()
      modifies this
      ensures Valid()
      ensures p == Pending(old(buttonHtml), Payload(controls))
      ensures buttonHtml == BusyHtml && buttonDisabled
      ensures controls == old(controls) && modalOpen == old(modalOpen)
    {
      var originalHtml := buttonHtml;
      buttonHtml := BusyHtml;
      buttonDisabled := true;
      var data: map<string, string> := map[];
      var pending := controls.Keys;
      while pending != {}
        invariant pending <= controls.Keys
        invariant forall name :: name in data <==> name in controls && name !in pending && controls[name].Some?
        invariant forall name :: name in data ==> data[name] == controls[name].value
        decreases pending
      {
        var key :| key in pending;
        if controls[key].Some? {
          data := data[key := controls[key].value];
        }
        pending := pending - {key};
      }
      p := Pending(originalHtml, data);
    }

    /**
     * The second half of `submitForm`, once the request settles: on success
     * open the modal and reset the form; on failure, or when opening the
     * modal throws because it was never installed, show the error
     * notification; finally restore the button.
     */
    method Settle(p: Pending, reply: Reply) returns (outcome: Outcome)
      requires Valid()
      modifies this, notices
      ensures Valid()
      ensures outcome == Classify(reply)
      ensures buttonHtml == p.originalHtml && !buttonDisabled
      ensures outcome == Delivered && modalInstalled ==>
        && modalOpen && controls == defaults
        && notices.visible == old(notices.visible) && notices.nextId == old(notices.nextId)
      ensures !(outcome == Delivered && modalInstalled) ==>
        && modalOpen == old(modalOpen) && controls == old(controls)
        && notices.visible == [Notice(old(notices.nextId), ErrorMessage, Error)]
        && notices.nextId == old(notices.nextId) + 1
    {
      outcome := Classify(reply);
      if outcome == Delivered && modalInstalled {
        modalOpen := true;
        controls := defaults;
      } else {
        var _ := notices.Show(ErrorMessage, Error);
      }
      buttonHtml := p.originalHtml;
      buttonDisabled := false;
    }

    /** `submitForm` from start to settlement: the button ends exactly as it began, and enabled. */
    method Submit(reply: Reply) returns (outcome: Outcome)
      requires Valid()
      modifies this, notices
      ensures Valid()
      ensures outcome == Classify(reply)
      ensures buttonHtml == old(buttonHtml) && !buttonDisabled
      ensures outcome == Delivered && modalInstalled ==>
        && modalOpen && controls == defaults
        && notices.visible == old(notices.visible) && notices.nextId == old(notices.nextId)
      ensures !(outcome == Delivered && modalInstalled) ==>
        && modalOpen == old(modalOpen) && controls == old(controls)
        && notices.visible == [Notice(old(notices.nextId), ErrorMessage, Error)]
        && notices.nextId == old(notices.nextId) + 1
    {
      var p := BeginSubmit();
      outcome := Settle(p, reply);
    }

    /**
     * The submit listener: validate; an invalid form is not sent and nothing
     * else changes; a valid one is submitted and `reply` is how it settles.
     */
    method OnSubmit(reply: Reply) returns (verdict: Verdict, outcome: Option<Outcome>)
      requires Valid()
      modifies this, notices
      ensures Valid()
      ensures verdict == Evaluate(ContactRules, old(controls))
      ensures !verdict.valid ==>
        && outcome == None && controls == old(controls) && modalOpen == old(modalOpen)
        && buttonHtml == old(buttonHtml) && buttonDisabled == old(buttonDisabled)
        && notices.visible == old(notices.visible) && notices.nextId == old(notices.nextId)
      ensures verdict.valid ==>
        && outcome == Some(Classify(reply))
        && buttonHtml == old(buttonHtml) && !buttonDisabled
      ensures verdict.valid && Classify(reply) == Delivered && modalInstalled ==>
        && modalOpen && controls == defaults
        && notices.visible == old(notices.visible) && notices.nextId == old(notices.nextId)
      ensures verdict.valid && !(Classify(reply) == Delivered && modalInstalled) ==>
        && modalOpen == old(modalOpen) && controls == old(controls)
        && notices.visible == [Notice(old(notices.nextId), ErrorMessage, Error)]
        && notices.nextId == old(notices.nextId) + 1
    {
      ContactRulesEvaluable(controls);
      var isValid, errors := ValidateForm(ContactRules, controls);
      verdict := Verdict(isValid, errors);
      if !isValid {
        outcome := None;
        return;
      }
      var o := Submit(reply);
      outcome := Some(o);
    }
  }
}
