/**
 * The data-entry page of the frontend (frontend/components/data-entry-page.jsx):
 * required-field validation of the flight and aircraft forms, the messages
 * a submit shows, the reset once the simulated save completes, and the
 * change handlers. The two timers of the page are modelled as separate
 * transitions: `FlightSaved`/`AircraftSaved` for the 1.5 s save and
 * `MessageExpired` for the 3 s message timeout.
 */
module DataEntryPage {
  import opened Wrappers

  /** A form's text fields by name; an absent name reads as `undefined`. */
  type Form = map<string, string>

  datatype Kind = Error | Loading | Success

  datatype Message = Message(kind: Kind, text: string)

  datatype Page = Page(flight: Form, aircraft: Form, message: Option<Message>)

  const FlightFormFields: set<string> := {"flight_id", "dep_time", "arr_time", "origin", "dest", "subtype",
                                          "min_seating_capacity", "ground_time", "onward_flight", "passengers",
                                          "distance"}
  const AircraftFormFields: set<string> := {"tail_num", "subtype", "capacity", "base_fuel", "efficiency",
                                            "pre_assignments"}

  /** The fields the flight submit checks; `subtype` and the others are not checked. */
  const FlightRequired: seq<string> := ["flight_id", "origin", "dest", "dep_time", "arr_time"]
  /** The fields the aircraft submit checks. */
  const AircraftRequired: seq<string> := ["tail_num", "subtype", "capacity"]

  const MissingFieldsText := "Please fill in all required fields."

  /** A form with every field empty, as the page opens and as it is cleared. */
  function EmptyForm(fields: set<string>): (r: Form)
    ensures r.Keys == fields
    ensures forall k :: k in r ==> r[k] == ""
  {
    map k | k in fields :: ""
  }

  /** A field as a template literal renders it. Reading a field the form lacks gives
      JavaScript's `undefined`, which a template literal renders as the text `undefined`. */
  function FieldText(form: Form, k: string): (r: string)
    ensures k in form ==> r == form[k]
    ensures k !in form ==> r == "undefined"
  {
    if k in form then form[k] else "undefined"
  }

  /** A field as a value. The same `undefined` is read here; every use of a value on these
      pages (`parseInt`, `parseFloat`, `new Date`, `||` and the conditional) treats it as it
      treats the empty text, so the empty text stands for it. */
  function FieldValue(form: Form, k: string): string
  {
    if k in form then form[k] else ""
  }

  /** JavaScript falsiness of a form field: absent or the empty string. */
  predicate Blank(form: Form, k: string) {
    k !in form || form[k] == ""
  }

  /** Some checked field is blank. */
  predicate AnyBlank(form: Form, required: seq<string>) {
    exists i :: 0 <= i < |required| && Blank(form, required[i])
  }

  /** `handleFlightSubmit` up to the timer: an error message when a checked field is blank,
      otherwise the loading message and the snapshot of the form the timer will report. */
  function HandleFlightSubmit(page: Page): (r: (Page, Option<Form>))
    ensures r.1.None? <==> AnyBlank(page.flight, FlightRequired)
    ensures r.1.None? ==> r.0 == page.(message := Some(Message(Error, MissingFieldsText)))
    ensures r.1.Some? ==> r.1.value == page.flight && r.0 == page.(message := Some(Message(Loading, "Adding flight...")))
  {
    if AnyBlank(page.flight, FlightRequired) then (page.(message := Some(Message(Error, MissingFieldsText))), None)
    else (page.(message := Some(Message(Loading, "Adding flight..."))), Some(page.flight))
  }

  /** `handleAircraftSubmit` up to the timer. */
  function HandleAircraftSubmit(page: Page): (r: (Page, Option<Form>))
    ensures r.1.None? <==> AnyBlank(page.aircraft, AircraftRequired)
    ensures r.1.None? ==> r.0 == page.(message := Some(Message(Error, MissingFieldsText)))
    ensures r.1.Some? ==>
      r.1.value == page.aircraft && r.0 == page.(message := Some(Message(Loading, "Adding aircraft...")))
  {
    if AnyBlank(page.aircraft, AircraftRequired) then (page.(message := Some(Message(Error, MissingFieldsText))), None)
    else (page.(message := Some(Message(Loading, "Adding aircraft..."))), Some(page.aircraft))
  }

  /** The flight save completes: a success message naming the submitted flight and an
      all-empty flight form; the aircraft form is left alone. */
  function FlightSaved(page: Page, submitted: Form): (r: Page)
    ensures r.flight.Keys == FlightFormFields && forall k :: k in r.flight ==> r.flight[k] == ""
    ensures r.aircraft == page.aircraft
    ensures r.message == Some(Message(Success, "Flight " + FieldText(submitted, "flight_id") + " successfully added."))
  {
    page.(flight := EmptyForm(FlightFormFields),
          message := Some(Message(Success, "Flight " + FieldText(submitted, "flight_id") + " successfully added.")))
  }

  /** The aircraft save completes. */
  function AircraftSaved(page: Page, submitted: Form): (r: Page)
    ensures r.aircraft.Keys == AircraftFormFields && forall k :: k in r.aircraft ==> r.aircraft[k] == ""
    ensures r.flight == page.flight
    ensures r.message == Some(Message(Success, "Aircraft " + FieldText(submitted, "tail_num") + " successfully added."))
  {
    page.(aircraft := EmptyForm(AircraftFormFields),
          message := Some(Message(Success, "Aircraft " + FieldText(submitted, "tail_num") + " successfully added.")))
  }

  /** The message timeout. */
  function MessageExpired(page: Page): (r: Page)
    ensures r.message.None? && r.flight == page.flight && r.aircraft == page.aircraft
  {
    page.(message := None)
  }

  /** `handleFlightChange` and `handleAircraftChange`: the named field takes the value. */
  function ChangeField(form: Form, name: string, value: string): (r: Form)
    ensures r.Keys == form.Keys + {name}
    ensures r[name] == value
    ensures forall k :: k in form && k != name ==> r[k] == form[k]
  {
    form[name := value]
  }

  /** A flight with every checked field filled is accepted even with an empty subtype. */
  lemma SubtypeNotChecked(page: Page)
    requires forall i :: 0 <= i < |FlightRequired| ==> !Blank(page.flight, FlightRequired[i])
    requires Blank(page.flight, "subtype")
    ensures HandleFlightSubmit(page).1.Some?
  {
  }

  /** An aircraft without a subtype is refused. */
  lemma AircraftNeedsSubtype(page: Page)
    requires Blank(page.aircraft, "subtype")
    ensures HandleAircraftSubmit(page).1.None?
  {
    assert Blank(page.aircraft, AircraftRequired[1]);
  }

  /** Submitting, saving and submitting the cleared form again is refused. */
  lemma ResubmitAfterSaveRefused(page: Page)
    requires HandleFlightSubmit(page).1.Some?
    ensures var (loading, submitted) := HandleFlightSubmit(page);
      HandleFlightSubmit(FlightSaved(loading, submitted.value)).1.None?
  {
    var (loading, submitted) := HandleFlightSubmit(page);
    var saved := FlightSaved(loading, submitted.value);
    assert Blank(saved.flight, FlightRequired[0]);
  }

  /** Editing a field the flight submit does not check never changes whether it is accepted. */
  lemma UncheckedFieldIrrelevant(page: Page, name: string, value: string)
    requires name !in FlightRequired
    ensures HandleFlightSubmit(page.(flight := ChangeField(page.flight, name, value))).1.None?
        == HandleFlightSubmit(page).1.None?
  {
    var edited := ChangeField(page.flight, name, value);
    forall i | 0 <= i < |FlightRequired|
      ensures Blank(edited, FlightRequired[i]) == Blank(page.flight, FlightRequired[i])
    {
      assert FlightRequired[i] != name;
    }
  }

  /** Setting a checked field to a non-empty value never turns an accepted flight into a refused one. */
  lemma FillingKeepsAccepted(page: Page, name: string, value: string)
    requires value != ""
    requires HandleFlightSubmit(page).1.Some?
    ensures HandleFlightSubmit(page.(flight := ChangeField(page.flight, name, value))).1.Some?
  {
    var edited := ChangeField(page.flight, name, value);
    forall i | 0 <= i < |FlightRequired|
      ensures !Blank(edited, FlightRequired[i])
    {
      assert !Blank(page.flight, FlightRequired[i]);
    }
  }
}
