/**
 * The crew-management page (project_1/components/crew-management-page.jsx):
 * the crew id normalisation and live validation of the form, the submit
 * guards, the search filter over the crew list and the join of stored
 * assignments with crew and flight details. The store operations it calls
 * are those of module `Api`.
 */
module CrewPage {
  import opened Wrappers
  import opened Text
  import opened Seqs
  import opened Api

  // ---------------------------------------------------------------------
  // The form

  /** The form's text fields by name. */
  type Form = map<string, string>

  const FormFields: set<string> := {"crewID", "firstName", "lastName", "age", "airline", "currentLocation",
                                    "role", "qualification", "experience", "status"}

  /** The form as the page opens it and as it returns to after a successful submit. */
  const DefaultForm: Form := map[
    "crewID" := "", "firstName" := "", "lastName" := "", "age" := "", "airline" := "GreenTail",
    "currentLocation" := "", "role" := "Flight Attendant", "qualification" := "Standard",
    "experience" := "", "status" := "Available"]

  /** A form with every field present. */
  predicate Complete(form: Form) {
    FormFields <= form.Keys
  }

  /** The crew id as typed, upper-cased with everything but `A-Z` and `0-9` removed. */
  function NormalizeCrewId(value: string): (r: string)
    ensures |r| <= |value|
    ensures forall i :: 0 <= i < |r| ==> IsUpperAlnum(r[i])
  {
    Filter(Upper(value), IsUpperAlnum)
  }

  /** Normalising keeps, in order, every upper-cased letter and digit of the input, each as
      often as it occurs, and nothing else. */
  lemma NormalizeKeepsAlnum(value: string)
    ensures IsSubsequence(NormalizeCrewId(value), Upper(value))
    ensures forall c :: multiset(NormalizeCrewId(value))[c] == if IsUpperAlnum(c) then multiset(Upper(value))[c] else 0
  {
    FilterIsSubsequence(Upper(value), IsUpperAlnum);
    forall c ensures multiset(Filter(Upper(value), IsUpperAlnum))[c] ==
      if IsUpperAlnum(c) then multiset(Upper(value))[c] else 0
    {
      FilterCount(Upper(value), IsUpperAlnum, c);
    }
  }

  /** Upper-casing leaves a string of upper-case letters and digits alone. */
  lemma {:induction false} UpperOfUpperAlnum(s: string)
    requires forall i :: 0 <= i < |s| ==> IsUpperAlnum(s[i])
    ensures Upper(s) == s
  {
    assert forall i :: 0 <= i < |s| ==> Upper(s)[i] == s[i];
  }

  /** A crew id that is already normalised is left as it is. */
  lemma NormalizeKeepsNormal(value: string)
    requires forall i :: 0 <= i < |value| ==> IsUpperAlnum(value[i])
    ensures NormalizeCrewId(value) == value
  {
    UpperOfUpperAlnum(value);
    FilterAll(value, IsUpperAlnum);
  }

  /** Normalising twice is normalising once. */
  lemma NormalizeIdempotent(value: string)
    ensures NormalizeCrewId(NormalizeCrewId(value)) == NormalizeCrewId(value)
  {
    NormalizeKeepsNormal(NormalizeCrewId(value));
  }

  /** Lower-case letters are kept (upper-cased), punctuation is dropped. */
  lemma NormalizeExample()
    ensures NormalizeCrewId("a1-b2c") == "A1B2C"
  {
    assert Upper("a1-b2c") == "A1-B2C";
    assert Filter("C", IsUpperAlnum) == "C";
    assert Filter("2C", IsUpperAlnum) == "2C";
    assert Filter("B2C", IsUpperAlnum) == "B2C";
    assert Filter("-B2C", IsUpperAlnum) == "B2C";
    assert Filter("1-B2C", IsUpperAlnum) == "1B2C";
  }

  const OnlyAlnumError := "Crew ID must contain only uppercase alphanumeric characters"
  const LengthError := "Crew ID must be exactly 5 characters"
  const SubmitFormatError := "Crew ID must be exactly 5 alphanumeric characters (e.g., A1B2C)"
  const DuplicateError := "Crew ID already exists"

  /** The live pattern `^[A-Z0-9]{0,5}$`. */
  predicate AtMostFiveAlnum(s: string) {
    |s| <= 5 && forall i :: 0 <= i < |s| ==> IsUpperAlnum(s[i])
  }

  /** The submit pattern `^[A-Z0-9]{5}$`. */
  predicate FiveAlnum(s: string) {
    |s| == 5 && forall i :: 0 <= i < |s| ==> IsUpperAlnum(s[i])
  }

  /** The crew id error after typing into the crew id field; an emptied field keeps the
      error shown before. */
  function LiveCrewIdError(normalized: string, shown: string): (r: string)
    ensures !AtMostFiveAlnum(normalized) ==> r == OnlyAlnumError
    ensures AtMostFiveAlnum(normalized) && 0 < |normalized| < 5 ==> r == LengthError
    ensures AtMostFiveAlnum(normalized) && |normalized| == 5 ==> r == ""
    ensures normalized == "" ==> r == shown
  {
    if !AtMostFiveAlnum(normalized) then OnlyAlnumError
    else if 0 < |normalized| < 5 then LengthError
    else if |normalized| == 5 then ""
    else shown
  }

  /** After normalisation the "only uppercase alphanumeric" message can only mean the id is
      too long, and each length gives one outcome. */
  lemma LiveErrorByLength(value: string, shown: string)
    ensures var n := NormalizeCrewId(value);
      (|n| > 5 ==> LiveCrewIdError(n, shown) == OnlyAlnumError)
      && (0 < |n| < 5 ==> LiveCrewIdError(n, shown) == LengthError)
      && (|n| == 5 ==> LiveCrewIdError(n, shown) == "")
      && (|n| == 0 ==> LiveCrewIdError(n, shown) == shown)
      && (!AtMostFiveAlnum(n) <==> |n| > 5)
  {
  }

  /** The page state the handlers touch. */
  datatype Page = Page(form: Form, crewIdError: string, crewMembers: seq<CrewMember>)

  /** `handleInputChange`: the named field takes the typed value (normalised for the crew
      id, which also updates the live error); nothing else changes. */
  function HandleInputChange(page: Page, name: string, value: string): (r: Page)
    ensures r.form.Keys == page.form.Keys + {name}
    ensures forall k :: k in page.form && k != name ==> r.form[k] == page.form[k]
    ensures name != "crewID" ==> r.form[name] == value && r.crewIdError == page.crewIdError
    ensures name == "crewID" ==>
      r.form[name] == NormalizeCrewId(value)
      && r.crewIdError == LiveCrewIdError(NormalizeCrewId(value), page.crewIdError)
    ensures r.crewMembers == page.crewMembers
  {
    if name == "crewID" then
      var n := NormalizeCrewId(value);
      page.(form := page.form[name := n], crewIdError := LiveCrewIdError(n, page.crewIdError))
    else
      page.(form := page.form[name := value])
  }

  /** The crew id field only ever holds upper-case letters and digits. */
  lemma CrewIdFieldStaysNormal(page: Page, name: string, value: string)
    requires "crewID" in page.form
    requires forall i :: 0 <= i < |page.form["crewID"]| ==> IsUpperAlnum(page.form["crewID"][i])
    ensures var id := HandleInputChange(page, name, value).form["crewID"];
      forall i :: 0 <= i < |id| ==> IsUpperAlnum(id[i])
  {
  }

  // ---------------------------------------------------------------------
  // Submitting

  predicate IdTaken(members: seq<CrewMember>, crewId: string) {
    exists i :: 0 <= i < |members| && members[i].fields.crewID == crewId
  }

  /** The record built from the form; age and experience go through `parseInt`. */
  function RecordOf(form: Form): (r: CrewFields)
    requires Complete(form)
    ensures r.crewID == form["crewID"] && r.firstName == form["firstName"] && r.lastName == form["lastName"]
    ensures r.age == ParseInt(form["age"]) && r.experience == ParseInt(form["experience"])
    ensures r.airline == form["airline"] && r.currentLocation == form["currentLocation"] && r.role == form["role"]
    ensures r.qualification == form["qualification"] && r.status == form["status"]
  {
    CrewFields(form["crewID"], form["firstName"], form["lastName"], ParseInt(form["age"]), form["airline"],
               form["currentLocation"], form["role"], form["qualification"], ParseInt(form["experience"]),
               form["status"])
  }

  /** `handleSubmit`: the format guard, then the duplicate guard, then `addCrewMember`;
      on success the list grows by the stored record and the form is reset. */
  function HandleSubmit(st: Store, page: Page): (r: (Store, Page))
    requires Complete(page.form)
    ensures !FiveAlnum(page.form["crewID"]) ==> r == (st, page.(crewIdError := SubmitFormatError))
    ensures FiveAlnum(page.form["crewID"]) && IdTaken(page.crewMembers, page.form["crewID"]) ==>
      r == (st, page.(crewIdError := DuplicateError))
    ensures FiveAlnum(page.form["crewID"]) && !IdTaken(page.crewMembers, page.form["crewID"]) ==>
      |r.1.crewMembers| == |page.crewMembers| + 1
      && r.1.crewMembers[..|page.crewMembers|] == page.crewMembers
      && r.1.crewMembers[|page.crewMembers|].fields == RecordOf(page.form)
      && r.0.crewMembers == Some(FetchCrewMembers(st) + [r.1.crewMembers[|page.crewMembers|]])
      && r.1.form == DefaultForm && r.1.crewIdError == ""
  {
    var id := page.form["crewID"];
    if !FiveAlnum(id) then (st, page.(crewIdError := SubmitFormatError))
    else if IdTaken(page.crewMembers, id) then (st, page.(crewIdError := DuplicateError))
    else
      var (st', added) := AddCrewMember(st, CrewData(None, RecordOf(page.form)));
      (st', Page(DefaultForm, "", page.crewMembers + [added]))
  }

  /** The crew ids on the page are pairwise different. */
  predicate DistinctIds(members: seq<CrewMember>) {
    forall i, j :: 0 <= i < j < |members| ==> members[i].fields.crewID != members[j].fields.crewID
  }

  /** The duplicate guard keeps the crew ids on the page distinct. */
  lemma SubmitKeepsIdsDistinct(st: Store, page: Page)
    requires Complete(page.form) && DistinctIds(page.crewMembers)
    ensures DistinctIds(HandleSubmit(st, page).1.crewMembers)
  {
    var r := HandleSubmit(st, page).1.crewMembers;
    if FiveAlnum(page.form["crewID"]) && !IdTaken(page.crewMembers, page.form["crewID"]) {
      forall i, j | 0 <= i < j < |r| ensures r[i].fields.crewID != r[j].fields.crewID {
        if j == |page.crewMembers| {
          assert r[i] == page.crewMembers[i];
        } else {
          assert r[i] == page.crewMembers[i] && r[j] == page.crewMembers[j];
        }
      }
    }
  }

  /** Submitting the same crew id again right after a successful submit is refused as a
      duplicate, and the store is left alone. */
  lemma ResubmitIsDuplicate(st: Store, page: Page)
    requires Complete(page.form)
    requires FiveAlnum(page.form["crewID"]) && !IdTaken(page.crewMembers, page.form["crewID"])
    ensures var (st1, page1) := HandleSubmit(st, page);
      var again := page1.(form := page.form);
      HandleSubmit(st1, again) == (st1, again.(crewIdError := DuplicateError))
  {
    var (st1, page1) := HandleSubmit(st, page);
    var n := |page.crewMembers|;
    assert page1.crewMembers[n].fields.crewID == page.form["crewID"];
  }

  // ---------------------------------------------------------------------
  // Search

  /** The search condition: the term occurs, ignoring case, in the first name, last name,
      crew id or role. */
  predicate Matches(m: CrewMember, term: string) {
    var t := Lower(term);
    Contains(Lower(m.fields.firstName), t) || Contains(Lower(m.fields.lastName), t)
    || Contains(Lower(m.fields.crewID), t) || Contains(Lower(m.fields.role), t)
  }

  /** `filteredCrewMembers`. */
  function SearchCrew(members: seq<CrewMember>, term: string): (r: seq<CrewMember>)
    ensures IsSubsequence(r, members)
    ensures forall m :: multiset(r)[m] == if Matches(m, term) then multiset(members)[m] else 0
    ensures forall m :: m in r <==> m in members && Matches(m, term)
  {
    var keep := (m: CrewMember) => Matches(m, term);
    FilterIsSubsequence(members, keep);
    forall m
      ensures multiset(Filter(members, keep))[m] == if keep(m) then multiset(members)[m] else 0
      ensures m in Filter(members, keep) <==> m in members && keep(m)
    {
      FilterCount(members, keep, m);
      FilterMember(members, keep, m);
    }
    Filter(members, keep)
  }

  /** An empty search shows everyone. */
  lemma EmptySearchKeepsAll(members: seq<CrewMember>)
    ensures SearchCrew(members, "") == members
  {
    forall i | 0 <= i < |members| ensures Matches(members[i], "") {
      ContainsEmpty(Lower(members[i].fields.firstName));
    }
    FilterAll(members, (m: CrewMember) => Matches(m, ""));
  }

  /** Lower-casing forgets any earlier upper-casing. */
  lemma LowerOfUpper(s: string)
    ensures Lower(Upper(s)) == Lower(s)
  {
    assert forall i :: 0 <= i < |s| ==> Lower(Upper(s))[i] == Lower(s)[i];
  }

  /** The case of the search term does not matter. */
  lemma SearchIgnoresTermCase(members: seq<CrewMember>, term: string)
    ensures SearchCrew(members, Upper(term)) == SearchCrew(members, term)
  {
    LowerOfUpper(term);
    FilterCongruent(members, (m: CrewMember) => Matches(m, Upper(term)), (m: CrewMember) => Matches(m, term));
  }

  /** Searching for a member's own crew id finds that member. */
  lemma SearchFindsOwnId(members: seq<CrewMember>, i: nat)
    requires i < |members|
    ensures members[i] in SearchCrew(members, members[i].fields.crewID)
  {
    var s := Lower(members[i].fields.crewID);
    assert IsPrefix(s, s);
  }

  // ---------------------------------------------------------------------
  // Assignments with details

  /** A flight as the page receives it from the backend. */
  datatype PageFlight = PageFlight(flightId: string, origin: string, dest: string, depTime: string, arrTime: string)

  /** One row of the assignments table. */
  datatype Detail = Detail(
    assignment: Assignment, crewName: string, crewRole: string, flightRoute: string,
    departureTime: string, arrivalTime: string)

  const UnknownText := "Unknown"

  /** The first crew member with the id (see `FindCrewFirst`). */
  function FindCrew(members: seq<CrewMember>, crewId: string): (r: Option<CrewMember>)
    ensures r.None? <==> forall i :: 0 <= i < |members| ==> members[i].fields.crewID != crewId
    ensures r.Some? ==> r.value in members && r.value.fields.crewID == crewId
  {
    if members == [] then None
    else if members[0].fields.crewID == crewId then Some(members[0])
    else FindCrew(members[1..], crewId)
  }

  /** The first flight with the id (see `FindPageFlightFirst`). */
  function FindPageFlight(flights: seq<PageFlight>, flightId: string): (r: Option<PageFlight>)
    ensures r.None? <==> forall i :: 0 <= i < |flights| ==> flights[i].flightId != flightId
    ensures r.Some? ==> r.value in flights && r.value.flightId == flightId
  {
    if flights == [] then None
    else if flights[0].flightId == flightId then Some(flights[0])
    else FindPageFlight(flights[1..], flightId)
  }

  /** The crew member found is the first with the id. */
  lemma {:induction false} FindCrewFirst(members: seq<CrewMember>, crewId: string)
    ensures FindCrew(members, crewId).Some? ==>
      exists i :: 0 <= i < |members| && members[i] == FindCrew(members, crewId).value
        && forall j :: 0 <= j < i ==> members[j].fields.crewID != crewId
  {
    if members != [] && members[0].fields.crewID != crewId && FindCrew(members, crewId).Some? {
      FindCrewFirst(members[1..], crewId);
      var i :| 0 <= i < |members[1..]| && members[1..][i] == FindCrew(members, crewId).value
        && forall j :: 0 <= j < i ==> members[1..][j].fields.crewID != crewId;
      assert members[i + 1] == FindCrew(members, crewId).value;
      assert forall j :: 0 <= j < i + 1 ==> members[j].fields.crewID != crewId by {
        forall j | 0 < j < i + 1 ensures members[j].fields.crewID != crewId {
          assert members[j] == members[1..][j - 1];
        }
      }
    }
  }

  /** The flight found is the first with the id. */
  lemma {:induction false} FindPageFlightFirst(flights: seq<PageFlight>, flightId: string)
    ensures FindPageFlight(flights, flightId).Some? ==>
      exists i :: 0 <= i < |flights| && flights[i] == FindPageFlight(flights, flightId).value
        && forall j :: 0 <= j < i ==> flights[j].flightId != flightId
  {
    if flights != [] && flights[0].flightId != flightId && FindPageFlight(flights, flightId).Some? {
      FindPageFlightFirst(flights[1..], flightId);
      var i :| 0 <= i < |flights[1..]| && flights[1..][i] == FindPageFlight(flights, flightId).value
        && forall j :: 0 <= j < i ==> flights[1..][j].flightId != flightId;
      assert flights[i + 1] == FindPageFlight(flights, flightId).value;
      assert forall j :: 0 <= j < i + 1 ==> flights[j].flightId != flightId by {
        forall j | 0 < j < i + 1 ensures flights[j].flightId != flightId {
          assert flights[j] == flights[1..][j - 1];
        }
      }
    }
  }

  /** `x || "Unknown"` on a string. */
  function OrUnknown(s: string): string {
    if s == "" then UnknownText else s
  }

  function DetailOf(a: Assignment, members: seq<CrewMember>, flights: seq<PageFlight>): Detail {
    var crew := FindCrew(members, a.crewId);
    var flight := FindPageFlight(flights, a.flightId);
    Detail(a,
      if crew.Some? then crew.value.fields.firstName + " " + crew.value.fields.lastName else UnknownText,
      if crew.Some? then OrUnknown(crew.value.fields.role) else UnknownText,
      if flight.Some? then flight.value.origin + " → " + flight.value.dest else UnknownText,
      if flight.Some? then OrUnknown(flight.value.depTime) else UnknownText,
      if flight.Some? then OrUnknown(flight.value.arrTime) else UnknownText)
  }

  /** `assignmentsWithDetails`: one row per assignment, in order, with placeholders for a
      crew member or flight that cannot be found. */
  function WithDetails(assignments: seq<Assignment>, members: seq<CrewMember>, flights: seq<PageFlight>)
    : (r: seq<Detail>)
    ensures |r| == |assignments|
    ensures forall i :: 0 <= i < |r| ==> r[i].assignment == assignments[i]
    ensures forall i :: 0 <= i < |r| && FindCrew(members, assignments[i].crewId).None? ==>
      r[i].crewName == UnknownText && r[i].crewRole == UnknownText
    ensures forall i :: 0 <= i < |r| && FindPageFlight(flights, assignments[i].flightId).None? ==>
      r[i].flightRoute == UnknownText && r[i].departureTime == UnknownText && r[i].arrivalTime == UnknownText
    ensures forall i :: 0 <= i < |r| && FindCrew(members, assignments[i].crewId).Some? ==>
      var m := FindCrew(members, assignments[i].crewId).value.fields;
      r[i].crewName == m.firstName + " " + m.lastName && r[i].crewRole == OrUnknown(m.role)
    ensures forall i :: 0 <= i < |r| && FindPageFlight(flights, assignments[i].flightId).Some? ==>
      var f := FindPageFlight(flights, assignments[i].flightId).value;
      r[i].flightRoute == f.origin + " → " + f.dest
      && r[i].departureTime == OrUnknown(f.depTime) && r[i].arrivalTime == OrUnknown(f.arrTime)
    ensures forall i :: 0 <= i < |r| ==> r[i].crewRole != "" && r[i].departureTime != "" && r[i].arrivalTime != ""
  {
    if assignments == [] then []
    else [DetailOf(assignments[0], members, flights)] + WithDetails(assignments[1..], members, flights)
  }

  /** Removing assignments removes exactly their rows: the join commutes with filtering. */
  lemma {:induction false} WithDetailsFilter(assignments: seq<Assignment>, members: seq<CrewMember>,
                                             flights: seq<PageFlight>, p: Assignment -> bool)
    ensures WithDetails(Filter(assignments, p), members, flights)
         == Filter(WithDetails(assignments, members, flights), (d: Detail) => p(d.assignment))
  {
    if assignments != [] {
      WithDetailsFilter(assignments[1..], members, flights, p);
    }
  }

  /** After `removeCrewAssignment`, the table shows the earlier rows minus those of the pair. */
  lemma RemoveDropsRows(st: Store, crewId: string, flightId: string, members: seq<CrewMember>,
                        flights: seq<PageFlight>)
    ensures WithDetails(GetCrewAssignments(RemoveCrewAssignment(st, crewId, flightId).0), members, flights)
         == Filter(WithDetails(GetCrewAssignments(st), members, flights),
                   (d: Detail) => KeepUnless(crewId, flightId)(d.assignment))
  {
    WithDetailsFilter(GetCrewAssignments(st), members, flights, KeepUnless(crewId, flightId));
  }
}
