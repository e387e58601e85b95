/** The contact form: four text fields bound to inputs, a submission status,
    and the delivery protocol that posts the fields to a form-collection
    endpoint, falling back to one fire-and-forget request when the first
    request throws. The network is abstracted: each request's outcome is an
    input. */
module ContactForm {

  datatype Option<T> = None | Some(value: T)

  /** The four inputs of the form. */
  datatype Field = Name | Email | Phone | Message

  datatype FormData = FormData(name: string, email: string, phone: string, message: string)

  datatype Status = Idle | Submitting | Success | Error

  datatype Form = Form(data: FormData, status: Status)

  function Get(d: FormData, f: Field): string {
    match f
    case Name => d.name
    case Email => d.email
    case Phone => d.phone
    case Message => d.message
  }

  /** The `name` attribute of each input, which is also the key it is posted under. */
  function Key(f: Field): string {
    match f
    case Name => "name"
    case Email => "email"
    case Phone => "phone"
    case Message => "message"
  }

  /** No two inputs share a key. */
  lemma KeysDistinct(f: Field, g: Field)
    ensures Key(f) == Key(g) ==> f == g
  {
  }

  /** Two records that agree on every field are the same record. */
  lemma FieldsDetermineData(a: FormData, b: FormData)
    requires forall f :: Get(a, f) == Get(b, f)
    ensures a == b
  {
    assert Get(a, Name) == Get(b, Name);
    assert Get(a, Email) == Get(b, Email);
    assert Get(a, Phone) == Get(b, Phone);
    assert Get(a, Message) == Get(b, Message);
  }

  /** The record with every field blank. */
  function Empty(): (d: FormData)
    ensures forall f :: Get(d, f) == ""
  {
    FormData("", "", "", "")
  }

  /** The form as the page first renders it. */
  function Initial(): (s: Form)
    ensures s.status == Idle
    ensures forall f :: Get(s.data, f) == ""
  {
    Form(Empty(), Idle)
  }

  /** Overwrite one field of the record. */
  function SetField(d: FormData, f: Field, v: string): (r: FormData)
    ensures Get(r, f) == v
    ensures forall g :: g != f ==> Get(r, g) == Get(d, g)
  {
    match f
    case Name => d.(name := v)
    case Email => d.(email := v)
    case Phone => d.(phone := v)
    case Message => d.(message := v)
  }

  /** A change event on one input: only that field changes, in any status. */
  function HandleInputChange(s: Form, f: Field, v: string): (r: Form)
    ensures r.status == s.status
    ensures Get(r.data, f) == v
    ensures forall g :: g != f ==> Get(r.data, g) == Get(s.data, g)
  {
    s.(data := SetField(s.data, f, v))
  }

  /** Re-entering a field's current value is no change; the last write to a
      field wins; writes to different fields commute. */
  lemma SetFieldLaws(d: FormData, f: Field, g: Field, v: string, w: string)
    ensures SetField(d, f, Get(d, f)) == d
    ensures SetField(SetField(d, f, v), f, w) == SetField(d, f, w)
    ensures f != g ==> SetField(SetField(d, f, v), g, w) == SetField(SetField(d, g, w), f, v)
  {
    FieldsDetermineData(SetField(d, f, Get(d, f)), d);
    FieldsDetermineData(SetField(SetField(d, f, v), f, w), SetField(d, f, w));
    if f != g {
      FieldsDetermineData(SetField(SetField(d, f, v), g, w), SetField(SetField(d, g, w), f, v));
    }
  }

  /** A form-encoded request body: key/value pairs in order. */
  type Body = seq<(string, string)>

  /** All values posted under key, in order. */
  function ValuesOf(body: Body, key: string): seq<string>
    decreases |body|
  {
    if body == [] then []
    else (if body[0].0 == key then [body[0].1] else []) + ValuesOf(body[1..], key)
  }

  /** The body built from the record: one entry per field, in the record's
      key order. */
  function Encode(d: FormData): (body: Body)
    ensures |body| == 4
    ensures forall f :: ValuesOf(body, Key(f)) == [Get(d, f)]
    ensures forall k :: 0 <= k < |body| ==> exists f :: body[k].0 == Key(f)
  {
    var body := [(Key(Name), d.name), (Key(Email), d.email), (Key(Phone), d.phone), (Key(Message), d.message)];
    forall f ensures ValuesOf(body, Key(f)) == [Get(d, f)] {
      forall g ensures Key(f) == Key(g) ==> f == g { KeysDistinct(f, g); }
      var key := Key(f);
      var b1, b2, b3 := body[1..], body[1..][1..], body[1..][1..][1..];
      assert ValuesOf(b3, key) == (if Message == f then [d.message] else []);
      assert ValuesOf(b2, key) == (if Phone == f then [d.phone] else []) + ValuesOf(b3, key);
      assert ValuesOf(b1, key) == (if Email == f then [d.email] else []) + ValuesOf(b2, key);
      assert ValuesOf(body, key) == (if Name == f then [d.name] else []) + ValuesOf(b1, key);
    }
    forall k | 0 <= k < |body| ensures exists f :: body[k].0 == Key(f) {
      var fields := [Name, Email, Phone, Message];
      assert body[k].0 == Key(fields[k]);
    }
    body
  }

  /** The body determines the record it was built from. */
  lemma EncodeInjective(a: FormData, b: FormData)
    requires Encode(a) == Encode(b)
    ensures a == b
  {
    forall f ensures Get(a, f) == Get(b, f) {
      assert ValuesOf(Encode(a), Key(f)) == [Get(a, f)];
      assert ValuesOf(Encode(b), Key(f)) == [Get(b, f)];
    }
    FieldsDetermineData(a, b);
  }

  /** The `type` of a fetch response. */
  datatype ResponseType = BasicType | CorsType | DefaultType | ErrorType | OpaqueType | OpaqueRedirectType

  datatype Response = Response(kind: ResponseType, ok: bool)

  /** The outcome of one awaited fetch: it threw, or it returned a response. */
  datatype Attempt = Threw | Returned(response: Response)

  /** The first request uses the default mode; the fallback uses no-cors. */
  datatype Mode = Cors | NoCors

  datatype Request = Request(mode: Mode, body: Body)

  /** A state after a submission together with the requests it issued. */
  datatype Submission = Submission(form: Form, requests: seq<Request>)

  /** The acknowledgment policy: an opaque response (unreadable, cross-origin)
      counts as receipt, and so does a readable response with an ok status. */
  predicate Acknowledged(res: Response) {
    res.kind == OpaqueType || res.ok
  }

  /** Whether a submission with these outcomes is treated as delivered: the
      first request returned an acknowledged response, or it threw and the
      fallback request did not throw (whatever the fallback returned). */
  predicate Delivered(primary: Attempt, fallback: Attempt) {
    (primary.Returned? && Acknowledged(primary.response)) || (primary.Threw? && fallback.Returned?)
  }

  /** What happens once the first request settles, applied to the form as it
      is at that moment. The requests returned are the ones made after the
      first: the fallback, if any. */
  function Settle(s: Form, body: Body, primary: Attempt, fallback: Attempt): (r: Submission)
    ensures r.form.status == Success <==> Delivered(primary, fallback)
    ensures r.form.status == Error <==> !Delivered(primary, fallback)
    ensures r.form.status == Success ==> forall f :: Get(r.form.data, f) == ""
    ensures r.form.status == Error ==> r.form.data == s.data
    ensures primary.Threw? ==> r.requests == [Request(NoCors, body)]
    ensures primary.Returned? ==> r.requests == []
  {
    match primary
    case Returned(res) =>
      if Acknowledged(res) then Submission(Form(Empty(), Success), [])
      else Submission(s.(status := Error), [])
    case Threw =>
      var requests := [Request(NoCors, body)];
      match fallback
      case Returned(_) => Submission(Form(Empty(), Success), requests)
      case Threw => Submission(s.(status := Error), requests)
  }

  /** The submit handler run to completion with nothing happening while the
      request is in flight: the form goes through `submitting`, the record
      is encoded once, and the outcomes decide the final status. */
  function HandleSubmit(s: Form, primary: Attempt, fallback: Attempt): (r: Submission)
    ensures r.form.status == Success <==> Delivered(primary, fallback)
    ensures r.form.status == Error <==> !Delivered(primary, fallback)
    ensures r.form.status == Success ==> forall f :: Get(r.form.data, f) == ""
    ensures r.form.status == Error ==> r.form.data == s.data
    ensures |r.requests| == if primary.Threw? then 2 else 1
    ensures r.requests[0] == Request(Cors, Encode(s.data))
    ensures forall k :: 0 <= k < |r.requests| ==> r.requests[k].body == Encode(s.data)
    ensures |r.requests| == 2 ==> r.requests[1].mode == NoCors
  {
    var body := Encode(s.data);
    var pending := s.(status := Submitting);
    var settled := Settle(pending, body, primary, fallback);
    Submission(settled.form, [Request(Cors, body)] + settled.requests)
  }

  /** The fallback's response is never read, and the fallback's outcome only
      matters when the first request threw. */
  lemma FallbackIsFireAndForget(s: Form, primary: Attempt, f1: Attempt, f2: Attempt)
    requires primary.Returned? || (f1.Returned? <==> f2.Returned?)
    ensures HandleSubmit(s, primary, f1) == HandleSubmit(s, primary, f2)
  {
  }

  /** The page-level state: the form and, while a submission is in flight,
      the body that was captured when it started. */
  datatype Page = Page(form: Form, inFlight: Option<Body>)

  /** `submitting` is shown exactly while a request is in flight. */
  predicate Consistent(p: Page) {
    p.form.status == Submitting <==> p.inFlight.Some?
  }

  /** Events on the form: an input change, a press of the submit button, and
      the settling of the in-flight request (with the outcomes of the first
      request and, if one is made, the fallback). */
  datatype FormEvent = Edit(field: Field, value: string) | Press | Settled(primary: Attempt, fallback: Attempt)

  /** The browser's own check of the `required` inputs (name, email and
      message): a required text input fails it while its value is empty. */
  predicate RequiredFilled(d: FormData) {
    d.name != "" && d.email != "" && d.message != ""
  }

  /** One event. The submit button is disabled while `submitting`, and the
      browser blocks the submit event while a required input is empty, so a
      press then does nothing; edits are accepted in every status. */
  function StepForm(p: Page, e: FormEvent): (r: (Page, seq<Request>))
    requires Consistent(p)
    ensures Consistent(r.0)
    ensures e.Press? && p.form.status == Submitting ==> r == (p, [])
    ensures e.Press? && !RequiredFilled(p.form.data) ==> r == (p, [])
    ensures e.Press? && p.form.status != Submitting && RequiredFilled(p.form.data) ==>
      && r.0.form == Form(p.form.data, Submitting)
      && r.0.inFlight == Some(Encode(p.form.data))
      && r.1 == [Request(Cors, Encode(p.form.data))]
    ensures e.Edit? ==> r.1 == [] && r.0.inFlight == p.inFlight && r.0.form.status == p.form.status
    ensures e.Edit? ==> Get(r.0.form.data, e.field) == e.value
    ensures e.Edit? ==> forall g :: g != e.field ==> Get(r.0.form.data, g) == Get(p.form.data, g)
    ensures e.Settled? ==> r.0.inFlight == None && (p.inFlight == None ==> r == (p, []))
    ensures e.Settled? && p.inFlight.Some? ==>
      && (r.0.form.status == Success <==> Delivered(e.primary, e.fallback))
      && (r.0.form.status == Error <==> !Delivered(e.primary, e.fallback))
      && (r.0.form.status == Success ==> r.0.form.data == Empty())
      && (r.0.form.status == Error ==> r.0.form.data == p.form.data)
      && r.1 == (if e.primary.Threw? then [Request(NoCors, p.inFlight.value)] else [])
  {
    match e
    case Edit(f, v) => (p.(form := HandleInputChange(p.form, f, v)), [])
    case Press =>
      if p.form.status == Submitting || !RequiredFilled(p.form.data) then (p, [])
      else
        var body := Encode(p.form.data);
        (Page(p.form.(status := Submitting), Some(body)), [Request(Cors, body)])
    case Settled(primary, fallback) =>
      match p.inFlight
      case None => (p, [])
      case Some(body) =>
        var settled := Settle(p.form, body, primary, fallback);
        (Page(settled.form, None), settled.requests)
  }

  function Presses(events: seq<FormEvent>): nat
    decreases |events|
  {
    if events == [] then 0 else (if events[0].Press? then 1 else 0) + Presses(events[1..])
  }

  function InFlightCount(p: Page): nat {
    if p.inFlight.Some? then 1 else 0
  }

  /** A run of events: the page stays consistent, at most one submission is
      in flight at a time, and every accepted press leads to at most two
      requests (the first, and the fallback once it settles). */
  function RunForm(p: Page, events: seq<FormEvent>): (r: (Page, seq<Request>))
    requires Consistent(p)
    ensures Consistent(r.0)
    ensures |r.1| + InFlightCount(r.0) <= 2 * Presses(events) + InFlightCount(p)
    decreases |events|
  {
    if events == [] then (p, [])
    else
      var (p1, sent1) := StepForm(p, events[0]);
      var (p2, sent2) := RunForm(p1, events[1..]);
      (p2, sent1 + sent2)
  }

  /** A press on the blank form that the page starts with sends nothing and
      leaves the form `idle`. */
  lemma BlankPressSendsNothing()
    ensures StepForm(Page(Initial(), None), Press) == (Page(Initial(), None), [])
  {
  }

  /** Pressing submit and letting the request settle with no edit in between
      is exactly the submit handler. */
  lemma PressThenSettleIsHandleSubmit(s: Form, primary: Attempt, fallback: Attempt)
    requires s.status != Submitting && RequiredFilled(s.data)
    ensures RunForm(Page(s, None), [Press, Settled(primary, fallback)]).0 == Page(HandleSubmit(s, primary, fallback).form, None)
    ensures RunForm(Page(s, None), [Press, Settled(primary, fallback)]).1 == HandleSubmit(s, primary, fallback).requests
  {
    var p := Page(s, None);
    var events := [Press, Settled(primary, fallback)];
    var step1 := StepForm(p, Press);
    var step2 := StepForm(step1.0, Settled(primary, fallback));
    assert events[1..] == [Settled(primary, fallback)];
    assert RunForm(step2.0, []) == (step2.0, []);
    assert RunForm(step1.0, events[1..]) == (step2.0, step2.1 + []);
    assert RunForm(p, events) == (step2.0, step1.1 + (step2.1 + []));
  }

  /** An edit made while the request is in flight is posted nowhere (the body
      was captured at the press), is wiped by a success, and survives an
      error. */
  lemma EditDuringSubmission(s: Form, f: Field, v: string, primary: Attempt, fallback: Attempt)
    requires s.status != Submitting && RequiredFilled(s.data)
    ensures var r := RunForm(Page(s, None), [Press, Edit(f, v), Settled(primary, fallback)]);
      && (forall k :: 0 <= k < |r.1| ==> r.1[k].body == Encode(s.data))
      && (r.0.form.status == Error ==> Get(r.0.form.data, f) == v)
      && (r.0.form.status == Success ==> Get(r.0.form.data, f) == "")
  {
    var p := Page(s, None);
    var events := [Press, Edit(f, v), Settled(primary, fallback)];
    var step1 := StepForm(p, Press);
    var step2 := StepForm(step1.0, Edit(f, v));
    var step3 := StepForm(step2.0, Settled(primary, fallback));
    assert events[1..] == [Edit(f, v), Settled(primary, fallback)];
    assert events[1..][1..] == [Settled(primary, fallback)];
    assert RunForm(step3.0, []) == (step3.0, []);
    assert RunForm(step2.0, events[1..][1..]) == (step3.0, step3.1 + []);
    assert RunForm(step1.0, events[1..]) == (step3.0, step2.1 + (step3.1 + []));
    assert RunForm(p, events) == (step3.0, step1.1 + (step2.1 + (step3.1 + [])));
    assert step2.0.inFlight == Some(Encode(s.data));
  }
}
