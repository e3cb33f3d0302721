/**
 * The data-entry page of the `project` app (project/src/pages/DataEntry.jsx):
 * how a submit shapes the form's text fields into the JSON record it posts to
 * the backend, and how the page reacts to the reply.
 *
 * `new Date(text).toISOString()` is a parameter `iso`: `None` stands for the
 * invalid date on which `toISOString` throws, `Some(t)` for the ISO text.
 * `parseFloat` is a parameter as well. `parseInt` is modelled by `Text.ParseInt`,
 * and `JSON.stringify` writes a `NaN` number as `null`.
 */
module DataEntryRecords {
  import opened Wrappers
  import opened Text
  import Backend
  import DataEntryPage

  type Form = DataEntryPage.Form
  type Record = Backend.Record

  /** The date every pre-assignment is placed on. */
  const PreAssignmentDay := "2025-03-07 "

  // ---------------------------------------------------------------------
  // Field conversions

  /** `String.prototype.replace` with a one-character pattern: only the first occurrence. */
  function ReplaceFirst(s: string, from: char, to: char): (r: string)
    ensures |r| == |s|
    ensures from !in s ==> r == s
    ensures from in s ==> r == s[..IndexOf(s, from)] + [to] + s[IndexOf(s, from) + 1..]
  {
    var i := IndexOf(s, from);
    if i == |s| then s else s[..i] + [to] + s[i + 1..]
  }

  /** `slice(0, n)`. */
  function Take(s: string, n: nat): (r: string)
    ensures |r| == if |s| < n then |s| else n
    ensures r == s[..|r|]
  {
    if |s| < n then s else s[..n]
  }

  /** A date-time field: `new Date(text).toISOString().replace('T', ' ').slice(0, 16)`,
      or `None` when `toISOString` throws. */
  function DateTimeText(text: string, iso: string -> Option<string>): (r: Option<string>)
    ensures r.None? <==> iso(text).None?
    ensures r.Some? ==> |r.value| == if |iso(text).value| < 16 then |iso(text).value| else 16
    ensures r.Some? ==> forall j :: 0 <= j < |r.value| ==>
      r.value[j] == if j == IndexOf(iso(text).value, 'T') then ' ' else iso(text).value[j]
  {
    match iso(text)
    case None => None
    case Some(t) => Some(Take(ReplaceFirst(t, 'T', ' '), 16))
  }

  /** An ISO text `yyyy-mm-ddThh:mm…` becomes `yyyy-mm-dd hh:mm`, the format the backend's
      time parser reads. */
  lemma {:induction false} IsoToBackendText(date: string, clock: string, rest: string)
    requires |date| == 10 && 'T' !in date && |clock| == 5
    ensures Take(ReplaceFirst(date + "T" + clock + rest, 'T', ' '), 16) == date + " " + clock
  {
    var s := date + "T" + clock + rest;
    assert s[..10] == date && s[10] == 'T';
    assert 'T' in s;
    var i := IndexOf(s, 'T');
    assert i == 10;
    var replaced := ReplaceFirst(s, 'T', ' ');
    assert replaced == date + " " + clock + rest;
    assert replaced[..16] == date + " " + clock;
  }

  /** `parseInt(text)` as `JSON.stringify` writes it. */
  function IntJson(text: string): (r: Backend.Json)
    ensures ParseInt(text).NaN? <==> r == Backend.JNull
    ensures ParseInt(text).Num? ==> r == Backend.JNumber(ParseInt(text).value as real)
  {
    match ParseInt(text)
    case NaN => Backend.JNull
    case Num(v) => Backend.JNumber(v as real)
  }

  /** `parseFloat(text)` as `JSON.stringify` writes it; `float` gives `None` for `NaN`. */
  function FloatJson(text: string, float: string -> Option<real>): (r: Backend.Json)
    ensures float(text).None? <==> r == Backend.JNull
    ensures float(text).Some? ==> r == Backend.JNumber(float(text).value)
  {
    match float(text)
    case None => Backend.JNull
    case Some(v) => Backend.JNumber(v)
  }

  /** `flightData.onward_flight || null`. */
  function OnwardJson(text: string): (r: Backend.Json)
    ensures r == Backend.JNull <==> text == ""
    ensures text != "" ==> r == Backend.JString(text)
  {
    if text == "" then Backend.JNull else Backend.JString(text)
  }

  /** The pre-assignment field: empty gives no windows; otherwise one window from the text
      before the first `-` to the text between the first and the second `-`, with the
      JavaScript `undefined` when there is no second part. */
  function PreAssignmentsJson(text: string): (r: Backend.Json)
    ensures text == "" <==> r == Backend.JList([])
    ensures text != "" ==> r == Backend.JList([Backend.JObject(map[
      "start" := Backend.JString(PreAssignmentDay + Split(text, '-')[0]),
      "end" := Backend.JString(PreAssignmentDay + (if |Split(text, '-')| > 1 then Split(text, '-')[1] else "undefined"))])])
  {
    if text == "" then Backend.JList([])
    else
      var parts := Split(text, '-');
      var end := if |parts| > 1 then parts[1] else "undefined";
      Backend.JList([Backend.JObject(map["start" := Backend.JString(PreAssignmentDay + parts[0]),
                                         "end" := Backend.JString(PreAssignmentDay + end)])])
  }

  /** The window a pre-assignment text describes, as `(start, end)`. */
  function Window(start: string, end: string): Backend.Json {
    Backend.JList([Backend.JObject(map["start" := Backend.JString(PreAssignmentDay + start),
                                       "end" := Backend.JString(PreAssignmentDay + end)])])
  }

  /** The parts of a non-empty pre-assignment text, stated by position: the start is the text
      before the first `-`; the end is the text after it up to the next `-`, or `undefined`. */
  lemma {:induction false} PreAssignmentsByPosition(text: string)
    requires text != ""
    ensures var i := IndexOf(text, '-');
      PreAssignmentsJson(text)
        == Window(text[..i], if i == |text| then "undefined" else text[i + 1..][..IndexOf(text[i + 1..], '-')])
  {
    var i := IndexOf(text, '-');
    SplitFirst(text, '-');
    if i < |text| {
      var rest := text[i + 1..];
      SplitFirst(rest, '-');
      assert Split(text, '-')[1] == Split(rest, '-')[0];
    }
  }

  /** The page's intended input `start-end` gives back exactly that window. */
  lemma PreAssignmentRoundTrip(start: string, end: string)
    requires '-' !in start && '-' !in end
    ensures PreAssignmentsJson(start + "-" + end) == Window(start, end)
  {
    SplitPiece(start, '-', end);
    SplitFirst(end, '-');
  }

  /** Text after a second `-` is dropped. */
  lemma ExtraSegmentsDropped(start: string, end: string, extra: string)
    requires '-' !in start && '-' !in end
    ensures PreAssignmentsJson(start + "-" + end + "-" + extra) == PreAssignmentsJson(start + "-" + end)
  {
    PreAssignmentRoundTrip(start, end);
    SplitPiece(start, '-', end + "-" + extra);
    assert start + "-" + end + "-" + extra == start + ['-'] + (end + "-" + extra);
    SplitPiece(end, '-', extra);
    assert end + "-" + extra == end + ['-'] + extra;
  }

  /** A text without any `-` gives a window ending at `undefined`. */
  lemma NoDashEndsUndefined(text: string)
    requires text != "" && '-' !in text
    ensures PreAssignmentsJson(text) == Window(text, "undefined")
  {
    SplitFirst(text, '-');
  }

  // ---------------------------------------------------------------------
  // Submits

  /** The flight fields the submit converts; every other field is posted as its text. */
  const FlightConverted: set<string> := {"dep_time", "arr_time", "min_seating_capacity", "ground_time",
                                         "passengers", "distance", "onward_flight"}
  /** The aircraft fields the submit converts. */
  const AircraftConverted: set<string> := {"capacity", "base_fuel", "efficiency", "pre_assignments"}

  /** The form's text fields as JSON strings. */
  function AsText(form: Form): (r: Record)
    ensures r.Keys == form.Keys
    ensures forall k :: k in form ==> r[k] == Backend.JString(form[k])
  {
    map k | k in form :: Backend.JString(form[k])
  }

  /** `formattedFlight`, or `None` when one of the two dates throws and nothing is posted. */
  function FlightRecord(form: Form, iso: string -> Option<string>): (r: Option<Record>)
    ensures r.None? <==> iso(DataEntryPage.FieldValue(form, "dep_time")).None? || iso(DataEntryPage.FieldValue(form, "arr_time")).None?
    ensures r.Some? ==> r.value.Keys == form.Keys + FlightConverted
    ensures r.Some? ==> forall k :: k in form && k !in FlightConverted ==> r.value[k] == Backend.JString(form[k])
    ensures r.Some? ==> r.value["dep_time"] == Backend.JString(DateTimeText(DataEntryPage.FieldValue(form, "dep_time"), iso).value)
    ensures r.Some? ==> r.value["arr_time"] == Backend.JString(DateTimeText(DataEntryPage.FieldValue(form, "arr_time"), iso).value)
    ensures r.Some? ==> r.value["onward_flight"] == OnwardJson(DataEntryPage.FieldValue(form, "onward_flight"))
    ensures r.Some? ==> forall k :: k in FlightConverted - {"dep_time", "arr_time", "onward_flight"} ==>
      r.value[k] == IntJson(DataEntryPage.FieldValue(form, k))
  {
    var dep := DateTimeText(DataEntryPage.FieldValue(form, "dep_time"), iso);
    var arr := DateTimeText(DataEntryPage.FieldValue(form, "arr_time"), iso);
    if dep.None? || arr.None? then None
    else Some(AsText(form) + FlightConversions(form, dep.value, arr.value))
  }

  /** The converted flight fields, given the two date-time texts. */
  function FlightConversions(form: Form, dep: string, arr: string): (r: Record)
    ensures r.Keys == FlightConverted
    ensures r["dep_time"] == Backend.JString(dep) && r["arr_time"] == Backend.JString(arr)
    ensures r["onward_flight"] == OnwardJson(DataEntryPage.FieldValue(form, "onward_flight"))
    ensures forall k :: k in FlightConverted - {"dep_time", "arr_time", "onward_flight"} ==> r[k] == IntJson(DataEntryPage.FieldValue(form, k))
  {
    map k | k in FlightConverted :: FlightField(form, dep, arr, k)
  }

  /** One converted flight field. */
  function FlightField(form: Form, dep: string, arr: string, k: string): Backend.Json {
    if k == "dep_time" then Backend.JString(dep)
    else if k == "arr_time" then Backend.JString(arr)
    else if k == "onward_flight" then OnwardJson(DataEntryPage.FieldValue(form, k))
    else IntJson(DataEntryPage.FieldValue(form, k))
  }

  /** `formattedAircraft`. */
  function AircraftRecord(form: Form, float: string -> Option<real>): (r: Record)
    ensures r.Keys == form.Keys + AircraftConverted
    ensures forall k :: k in form && k !in AircraftConverted ==> r[k] == Backend.JString(form[k])
    ensures r["capacity"] == IntJson(DataEntryPage.FieldValue(form, "capacity"))
    ensures r["base_fuel"] == FloatJson(DataEntryPage.FieldValue(form, "base_fuel"), float)
    ensures r["efficiency"] == FloatJson(DataEntryPage.FieldValue(form, "efficiency"), float)
    ensures r["pre_assignments"] == PreAssignmentsJson(DataEntryPage.FieldValue(form, "pre_assignments"))
  {
    AsText(form) + map k | k in AircraftConverted :: AircraftField(form, float, k)
  }

  /** One converted aircraft field. */
  function AircraftField(form: Form, float: string -> Option<real>, k: string): Backend.Json {
    if k == "capacity" then IntJson(DataEntryPage.FieldValue(form, k))
    else if k == "pre_assignments" then PreAssignmentsJson(DataEntryPage.FieldValue(form, k))
    else FloatJson(DataEntryPage.FieldValue(form, k), float)
  }

  /** A posted flight record from a complete form passes the backend's required-key check, and
      the backend stores its onward flight as the page shaped it: no `null` is replaced. */
  lemma FlightRecordAccepted(flights: seq<Record>, form: Form, iso: string -> Option<string>)
    requires DataEntryPage.FlightFormFields <= form.Keys
    requires FlightRecord(form, iso).Some?
    ensures var (stored, reply) := Backend.AddFlight(flights, FlightRecord(form, iso).value);
      reply.status == 201 && stored[|flights|]["onward_flight"] == OnwardJson(form["onward_flight"])
  {
    var rec := FlightRecord(form, iso).value;
    forall i | 0 <= i < |Backend.FlightFields|
      ensures Backend.FlightFields[i] in rec
    {
      assert Backend.FlightFields[i] in DataEntryPage.FlightFormFields;
    }
  }

  /** A posted aircraft record from a complete form passes the backend's check, and its
      pre-assignments are stored as the page shaped them. */
  lemma AircraftRecordAccepted(aircraft: seq<Record>, form: Form, float: string -> Option<real>)
    requires DataEntryPage.AircraftFormFields <= form.Keys
    ensures var (stored, reply) := Backend.AddAircraft(aircraft, AircraftRecord(form, float));
      reply.status == 201 && stored[|aircraft|]["pre_assignments"] == PreAssignmentsJson(form["pre_assignments"])
  {
    var rec := AircraftRecord(form, float);
    forall i | 0 <= i < |Backend.AircraftFields|
      ensures Backend.AircraftFields[i] in rec
    {
      assert Backend.AircraftFields[i] in DataEntryPage.AircraftFormFields;
    }
  }

  // ---------------------------------------------------------------------
  // Replies

  datatype Page = Page(flight: Form, aircraft: Form, message: string)

  /** What the request settled as: a reply, or the rejection's error message. */
  datatype Settled = Replied | Failed(errorMessage: string)

  /** The flight request settles: success clears the flight form, failure keeps it. */
  function FlightSettled(page: Page, outcome: Settled): (r: Page)
    ensures r.aircraft == page.aircraft
    ensures outcome.Replied? ==>
      r.message == "Flight added successfully!" && r.flight == DataEntryPage.EmptyForm(DataEntryPage.FlightFormFields)
    ensures outcome.Failed? ==> r.message == "Error adding flight: " + outcome.errorMessage && r.flight == page.flight
  {
    match outcome
    case Replied => page.(flight := DataEntryPage.EmptyForm(DataEntryPage.FlightFormFields),
                          message := "Flight added successfully!")
    case Failed(e) => page.(message := "Error adding flight: " + e)
  }

  /** The aircraft request settles. */
  function AircraftSettled(page: Page, outcome: Settled): (r: Page)
    ensures r.flight == page.flight
    ensures outcome.Replied? ==>
      r.message == "Aircraft added successfully!" && r.aircraft == DataEntryPage.EmptyForm(DataEntryPage.AircraftFormFields)
    ensures outcome.Failed? ==> r.message == "Error adding aircraft: " + outcome.errorMessage && r.aircraft == page.aircraft
  {
    match outcome
    case Replied => page.(aircraft := DataEntryPage.EmptyForm(DataEntryPage.AircraftFormFields),
                          message := "Aircraft added successfully!")
    case Failed(e) => page.(message := "Error adding aircraft: " + e)
  }

  /** After a successful save the cleared flight form posts no onward flight and no
      pre-assignment windows. */
  lemma ClearedFormsPostNothing(page: Page, float: string -> Option<real>)
    ensures var cleared := AircraftSettled(FlightSettled(page, Replied), Replied);
      OnwardJson(cleared.flight["onward_flight"]) == Backend.JNull
      && AircraftRecord(cleared.aircraft, float)["pre_assignments"] == Backend.JList([])
  {
  }
}
