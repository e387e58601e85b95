# Lexora website: slideshow and contact form, modelled in Dafny

The Lexora marketing page (`App.tsx`) holds two small pieces of state logic
among its markup. This project models both, with fetch calls treated as
inputs, and proves what each one promises.

* **Slideshow** (`slideshow.dfy`). A cursor moves over a fixed list of three
  slides. Timer ticks and the right arrow advance it with `(prev + 1) % N`.
  The left arrow steps back with `(prev - 1 + N) % N`. An indicator dot sets
  it to the dot's position, which comes from enumerating the slides. The
  state is a JavaScript number, so `Next` and `Prev` are defined on every
  integer using JavaScript's truncating `%` (`js_arith.dfy`). The proofs show
  that every valid index stays valid, that `Next` and `Prev` are inverses,
  that k advances rotate the cursor by k, and that N advances come back to
  the start.
* **Contact form** (`contact_form.dfy`). A four-field record and a status
  `idle | submitting | success | error`. A change event overwrites one
  field. Submitting posts the record, form-encoded, with a first request. An
  opaque or `ok` response means success. A readable non-ok response means
  error, with no retry. If the first request throws, one `no-cors` fallback
  is sent with the same body, and the only thing that matters is whether it
  throws. Success clears the record. Error leaves it as it is.
  * `HandleSubmit` is the handler run to completion.
  * `Page`, `StepForm` and `RunForm` cover the window while a request is in
    flight. During that window the submit button is disabled and edits are
    still accepted. The body is captured at the press. A press while a
    required input (name, email, message) is empty is blocked by the
    browser and does nothing.
  * On error the code sets only the status. So the record kept is the one
    present when the request settles. It equals the pre-submit record only
    when nothing was edited while the request was in flight. The model
    follows the code here (`Settle`, `EditDuringSubmission`).

## Model

| member | source | states |
|---|---|---|
| JsArith.Rem | App.tsx:40-41 | JavaScript `%` with a positive divisor: the result has the dividend's sign, its magnitude is below the divisor, and it differs from the dividend by a multiple of the divisor |
| Slideshow.SlidesWellFormed | App.tsx:19-38 | there are three slides (so the modulus is non-zero) and their ids, used as rendering keys, are pairwise distinct |
| Slideshow.InitialSlide | App.tsx:7 | the page starts on a valid index, the slide with id 1 |
| Slideshow.Next | App.tsx:40 | from any non-negative index the result is in `[0, N)`; on a valid index it is the successor, wrapping from N-1 to 0 |
| Slideshow.Prev | App.tsx:41 | from any index at least 1-N the result is in `[0, N)`; on a valid index it is the predecessor, and from 0 it is N-1 |
| Slideshow.NextPrevInverse | App.tsx:40-41 | `Prev(Next(i)) == i` and `Next(Prev(i)) == i` for every valid index |
| Slideshow.Advance | App.tsx:44-47 | any number of consecutive ticks keeps a valid index valid |
| Slideshow.AdvanceIsRotation | App.tsx:40-45 | k advances from a valid index i land on `(i + k) mod N` |
| Slideshow.FullCycle | App.tsx:40 | N advances return to the starting slide |
| Slideshow.Indicators | App.tsx:591-594 | there is one dot per slide and the dot at position k targets index k |
| Slideshow.Step | App.tsx:576-596 | on a valid cursor a tick (App.tsx:45) or a right-arrow click moves to `(current + 1) mod N` and a left-arrow click to `(current + N - 1) mod N`, both staying valid; a dot click sets the cursor to that dot's position, which is always valid |
| Slideshow.Run | App.tsx:576-596 | a whole sequence of ticks, arrow clicks and dot clicks keeps a valid cursor valid |
| Slideshow.NeverOutOfRange | App.tsx:7-41 | from the initial slide, no sequence of navigation events leaves `[0, N)` |
| Slideshow.TicksAreAdvances | App.tsx:40-45 | a run of k timer ticks from a valid index, with no clicks, equals k advances and lands on `(i + k) mod N` |
| ContactForm.KeysDistinct | App.tsx:614-657 | the four inputs carry four different `name` keys |
| ContactForm.Empty | App.tsx:70 | the cleared record has every field blank |
| ContactForm.Initial | App.tsx:10-16 | the form starts `idle` with every field blank |
| ContactForm.SetField | App.tsx:52 | the named field takes the new value and the other three fields keep theirs |
| ContactForm.HandleInputChange | App.tsx:50-53 | a change event updates only the named field and leaves the status untouched, in any status |
| ContactForm.SetFieldLaws | App.tsx:52 | writing a field's own value changes nothing, the last write to a field wins, and writes to different fields commute |
| ContactForm.Encode | App.tsx:61 | the posted body has four entries, each field's key occurs exactly once with that field's value, and no other key occurs |
| ContactForm.EncodeInjective | App.tsx:61 | different records produce different bodies |
| ContactForm.Settle | App.tsx:63-84 | once the first request settles, the status is `success` exactly when the outcome is delivered (acknowledged response, or a throw followed by a fallback that returns) and `error` otherwise; success clears all fields; error keeps the record as it is at that moment; a fallback `no-cors` request with the same body is made exactly when the first request threw |
| ContactForm.HandleSubmit | App.tsx:55-85 | success iff delivered, error iff not; success clears the fields and error keeps the pre-submit record; one request when the first returns and two when it throws; the first request is in default mode, the second is `no-cors`, and both carry the encoded pre-submit record |
| ContactForm.FallbackIsFireAndForget | App.tsx:74-79 | the fallback's response content never matters, and the fallback's outcome matters only when the first request threw |
| ContactForm.StepForm | App.tsx:611-666 | `submitting` is shown exactly while a request is in flight; a press while `submitting`, or while a required input is empty, changes nothing and sends nothing; any other press enters `submitting`, captures the encoded record as the in-flight body and sends it in the first request; an edit changes only its field, in any status; a settle with a request in flight ends it, gives `success` exactly when the outcome is delivered and `error` otherwise, clears the record on success, keeps the record as it is at that moment on error, and sends one `no-cors` request with the captured body exactly when the first request threw; a settle with nothing in flight changes nothing |
| ContactForm.RunForm | App.tsx:55-85 | over any sequence of edits, presses and settles the page stays consistent; the requests sent, plus one if a request is still in flight at the end, are at most twice the number of presses plus one if a request was already in flight at the start (so from a page with nothing in flight, at most two requests per press) |
| ContactForm.BlankPressSendsNothing | App.tsx:611-620 | a press on the initial blank form sends no request and leaves the form `idle`, because the required name input is empty |
| ContactForm.PressThenSettleIsHandleSubmit | App.tsx:55-85 | with the required inputs filled, pressing submit and letting the request settle, with nothing in between, gives the same final form and requests as the submit handler |
| ContactForm.EditDuringSubmission | App.tsx:57-79 | with the required inputs filled, an edit made while the request is in flight is not posted, because the body was captured at the press; a success wipes it and an error keeps it |

## Left out

- Markup, styling, icons and decorations: presentation with no behavioural contract.
- The mobile menu toggle: a boolean flip.
- The auto-advance timer: its 5000 ms period, creation on mount and clearing on unmount are lifecycle and timing. A tick is modelled as one `Next`.
- The endpoint URL, the real `fetch` calls, CORS, and the percent-encoding that `URLSearchParams` applies: these are network and browser library behaviour. A request is modelled as its mode plus the key/value pairs it posts. Each request's outcome is an input.
- ContactForm.HandleInputChange: takes one of the four known fields rather than an arbitrary `name` string. Every input on the page carries one of those four names.
- ContactForm.StepForm: of the browser's own validation it models only the `required` check on name, email and message. The `type="email"` format check is not modelled, so a press stands for a submit event whose email value the browser already accepted as an address.
- `console.error` on the fallback failure and the footer's current year: side effects and clock access.
