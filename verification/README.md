# GreenTail AI: a Dafny model of the scheduling dashboards and their backend

GreenTail AI assigns an airline's flights to aircraft tails. A Flask backend runs a learning
loop that may only make *valid* assignments: a matching subtype, enough seats, an aircraft
free around the flight's ground time and outside its maintenance windows, and, unless trips
may be broken, a flight's onward flight on the same tail. The code checks that last rule in
one direction only, so a trip can still be split (see "Findings"). Several React dashboards
drive it:

- a schedule page that draws each aircraft's day as a chain of flights and maintenance gaps;
- a crew-management page backed by browser storage;
- a disruptions page fed by a mock flight generator with a chaos mode;
- two data-entry pages that shape form input into the records the backend stores.

This project models that logic as pure functions over immutable datatypes and proves what
each piece promises. Times are integer minutes. Browser storage is an in-memory value. Every
random draw is a parameter, and each property holds for all draws.

| file | module | models |
|---|---|---|
| `seqs.dfy` | `Wrappers`, `Seqs` | `Option`/`Result`, and the order-preserving `Filter` with its lemmas |
| `text.dfy` | `Text` | ASCII case mapping, `split`/`join`, `indexOf`, string order, decimal text, JavaScript `parseInt` |
| `api.dfy` | `Api` | `project_1/lib/api.jsx`: query parameters and the crew store |
| `sort_toggle.dfy` | `SortToggle` | the `handleSort` toggle shared by the schedule and disruptions pages |
| `schedule_page.dfy` | `SchedulePage` | `project_1/components/schedule-page.jsx` |
| `backend.dfy` | `Backend` | `backend/app.py` |
| `crew_page.dfy` | `CrewPage` | `project_1/components/crew-management-page.jsx` |
| `disruptions.dfy` | `Disruptions` | `frontend/components/disruptions-page.jsx` |
| `data_entry_page.dfy` | `DataEntryPage` | `frontend/components/data-entry-page.jsx` |
| `data_entry_records.dfy` | `DataEntryRecords` | `project/src/pages/DataEntry.jsx` |

The backend's learning loop is modelled only as far as validity is concerned. The tail it
tries for each flight in each epoch is an input `picks`: the Q-table, the epsilon-greedy draw
and the rewards decide only *which* tail is tried, never whether an assignment is valid. The
invariants proved for `Backend.RunRl` therefore hold for every policy.

Two defects of the backend are listed under "Findings". The backend is modelled both as
written and corrected: `Backend.Version` is `AsWritten` or `Corrected`, and it chooses the
onward-flight rule (`OnwardOnly` or `BothWays`) and the reply of `/schedule` and
`/disruptions` (the first stored result of the mode, or the one just stored). The trip
invariant is proved for the corrected rule only; as written it fails (`Backend.RunRlBreaksTrip`).

## Model

| member | source | states |
|---|---|---|
| SortToggle.HandleSort | project_1/components/schedule-page.jsx:103-110 | clicking the current field keeps it and flips the direction; clicking another field selects it ascending (the disruptions table, frontend/components/disruptions-page.jsx:116-123, has the same toggle) |
| SortToggle.SameFieldTwice | project_1/components/schedule-page.jsx:103-110 | clicking the current field twice restores the original sort |
| SortToggle.NewFieldTwice | frontend/components/disruptions-page.jsx:116-123 | clicking a new field twice sorts by it descending |
| SchedulePage.SortByDep | project_1/components/schedule-page.jsx:66-68 | a tail's flights come out ordered by departure and as a permutation of the input |
| SchedulePage.SortByDepStable | project_1/components/schedule-page.jsx:66-68 | flights with equal departures keep their fetch order |
| SchedulePage.InsertStable | project_1/components/schedule-page.jsx:66-68 | one insertion step puts the new flight ahead of flights departing at the same minute and keeps their relative order |
| SchedulePage.WithGaps | project_1/components/schedule-page.jsx:70-83 | the chain holds exactly the given flights in order; a maintenance item sits between two flights iff their gap exceeds 60 minutes, and it carries that gap; the chain starts with the first flight |
| SchedulePage.WellGappedUnique | project_1/components/schedule-page.jsx:70-83 | any chain with those flights and the gap rule is the one the loop builds |
| SchedulePage.ChainShape | project_1/components/schedule-page.jsx:71-82 | a single flight gives a one-item chain; two maintenance items are never adjacent |
| SchedulePage.NinetyMinuteGap | project_1/components/schedule-page.jsx:57-84 | a 90-minute gap between two flights of one tail, fetched out of order, gives a 90-minute block between them |
| SchedulePage.HourGapNoBlock | project_1/components/schedule-page.jsx:78 | an arrival at 10:00 followed by a departure at 11:00 gives no block |
| SchedulePage.BuildChains | project_1/components/schedule-page.jsx:57-84 | one chain per tail with flights; each chain is well gapped and ordered by departure; it holds exactly the flights of that tail with multiplicity; equal departures keep fetch order |
| SchedulePage.OneTail | project_1/components/schedule-page.jsx:57-84 | flights all on one tail give a single chain: the sorted, gapped list |
| SchedulePage.NoFlightsNoChains | project_1/components/schedule-page.jsx:57-62 | no flights give no chains |
| SchedulePage.HandleFilterChange | project_1/components/schedule-page.jsx:95-101 | only the named filter changes: to the checkbox state for a checkbox, otherwise to the text |
| SchedulePage.CheckedChange | project_1/components/schedule-page.jsx:295-309 | a flag checkbox sets its flag to the new state, exactly as the checkbox branch of handleFilterChange would |
| SchedulePage.ResetFilters | project_1/components/schedule-page.jsx:189-197 | the reset record has exactly the six default keys and sends the default dates, respect_pre true and break_trips false |
| SchedulePage.ResetThenUncheck | project_1/components/schedule-page.jsx:295-300 | unchecking respect_pre after a reset sends it as false instead of dropping it |
| SchedulePage.TooltipKindOf | project_1/components/schedule-page.jsx:134-139 | "Optimized" iff carbon per passenger is under 100; otherwise "Tight" iff the ground time is at most 60; otherwise "Balanced" |
| SchedulePage.FlightTooltip | project_1/components/schedule-page.jsx:134-139 | the tooltip text opens with the kind's label and ends with the passenger count, negative ones included, which reads back as that count |
| SchedulePage.EfficientPerPassenger | project_1/components/schedule-page.jsx:134-136 | with a positive passenger count, "Optimized" iff carbon < 100 × passengers |
| SchedulePage.EfficientNegativeCount | project_1/components/schedule-page.jsx:127-136 | with a negative passenger count, "Optimized" iff carbon > 100 × passengers, so every flight with non-negative carbon reads "Optimized" |
| Text.ParseIntIntToString | project_1/components/schedule-page.jsx:136 | the signed decimal rendering of a count, as the template literal prints it, reads back as the count |
| SchedulePage.RowClasses | project_1/components/schedule-page.jsx:127-132 | the row is marked efficient iff the flight is efficient, and tight iff its ground time is at most 60 |
| SchedulePage.RowAgreesWithTooltip | project_1/components/schedule-page.jsx:127-139 | the efficient row class and the "Optimized" tooltip agree; a tight row without it reads "Tight" |
| Api.Lookup | backend/app.py:116-121 | reading a query parameter finds nothing iff no pair carries that key |
| Api.LookupFirst | backend/app.py:116-121 | the value read is that of the first pair carrying the key, as `request.args.get` returns it |
| Api.QueryParams | project_1/lib/api.jsx:8-13 | subtype, dates and exclude_tails are sent iff truthy; respect_pre and break_trips are sent iff defined, even when false; nothing else is sent (`fetchDisruptions`, lines 33-38, builds the same parameters) |
| Api.QueryParamsInOrder | project_1/lib/api.jsx:8-13 | the parameters appear in the order of the six `if` lines |
| Api.LookupParamsFor | project_1/lib/api.jsx:8-13 | each rule decides its own key's presence and value, independently of the others |
| Api.FetchCrewMembers | project_1/lib/api.jsx:141-157 | an absent storage key reads as the empty list; otherwise the stored list |
| Api.GetCrewAssignments | project_1/lib/api.jsx:219-223 | an absent storage key reads as the empty list; otherwise the stored list |
| Api.AddCrewMember | project_1/lib/api.jsx:159-169 | exactly one record is appended; its id is the previous length + 1 unless the data carries an id, which wins; earlier members and the assignments are unchanged |
| Api.AddKeepsNumbering | project_1/lib/api.jsx:162-167 | ids 1..n become ids 1..n+1 |
| Api.AssignCrewToFlight | project_1/lib/api.jsx:189-199 | exactly one `{crewId, flightId, assignedAt}` is appended; the earlier assignments and the members are unchanged |
| Api.RemoveCrewAssignment | project_1/lib/api.jsx:237-245 | no assignment of that crew member to that flight remains; every other one is kept; success is reported |
| Api.RemoveKeepsOthers | project_1/lib/api.jsx:240-244 | the remaining assignments are an order-preserving subsequence, and every other pair keeps its multiplicity |
| Api.RemoveIdempotent | project_1/lib/api.jsx:240-244 | removing twice equals removing once |
| Api.RemoveAbsentIsNoop | project_1/lib/api.jsx:240-244 | removing an absent pair changes nothing |
| Api.AssignThenRemove | project_1/lib/api.jsx:189-244 | assigning a new pair and removing it restores the assignments |
| Api.FilterMembersOf | project_1/lib/api.jsx:240-243 | an assignment survives the filter iff it was there and is not the removed pair |
| Backend.FindFlight | backend/app.py:41 | some flight with that id; none iff no flight has it |
| Backend.FindAircraft | backend/app.py:47 | some aircraft with that tail; none iff no aircraft has it |
| Backend.FindFlightFirst | backend/app.py:41 | the flight found is the first with that id: every earlier flight has another id |
| Backend.FindAircraftFirst | backend/app.py:47 | the aircraft found is the first with that tail: every earlier aircraft has another tail |
| Backend.FindFlightUnique | backend/app.py:41 | with distinct ids the lookup finds the flight itself |
| Backend.IsAvailable | backend/app.py:35-55 | available iff every flight already on that tail is clear of the candidate padded by the candidate's ground time on both sides, and, when pre-assignments are respected, the aircraft exists and the flight lies outside each window |
| Backend.OtherTailsIgnored | backend/app.py:39-40 | assignments to other tails never change the answer |
| Backend.FleetIgnoredWithoutPre | backend/app.py:46 | without respect_pre the fleet is not consulted |
| Backend.MissingAircraftUnavailable | backend/app.py:47-49 | with respect_pre an unknown tail is never available |
| Backend.OpenDisjoint | backend/app.py:53 | the window test is disjointness of open intervals, so touching endpoints pass |
| Backend.OutsideWindowIsDisjoint | backend/app.py:50-54 | outside a window iff the flight and the window share no instant |
| Backend.ClearIsDisjoint | backend/app.py:44 | clear iff the two flights, each padded at its end by the candidate's ground time, share no instant |
| Backend.Onward | backend/app.py:85 | the onward flight counts iff it is present and non-empty |
| Backend.Step | backend/app.py:82-90 | the flight is assigned to the tail iff the step is valid (otherwise the previous entry stays); no other entry changes |
| Backend.EpochFrom | backend/app.py:77-93 | an epoch's pass leaves every assigned flight one that can be looked up, on a tail of the aircraft list |
| Backend.EpochFromKeeps | backend/app.py:77-93 | an epoch never removes an assignment |
| Backend.EpochFromUntouched | backend/app.py:77-93 | an epoch keeps the tail of every assigned flight it does not visit |
| Backend.UnvisitedMeans | backend/app.py:77-79 | the recursive "not visited from position i on" agrees with "no flight from position i on has the id" |
| Backend.StepSound | backend/app.py:82-90 | after a step every recorded assignment still has a matching subtype and enough seats |
| Backend.StepNoOverlap | backend/app.py:82-90 | after a step no two flights on one tail overlap with ground time |
| Backend.StepPreRespected | backend/app.py:82-90 | with respect_pre no recorded flight meets a pre-assignment window |
| Backend.StepTripsKept | backend/app.py:85-86 | under the two-way onward rule, a flight and its onward flight are never on different tails |
| Backend.StepKeeps | backend/app.py:82-90 | a step keeps each of the four invariants under the settings it applies to |
| Backend.EpochKeeps | backend/app.py:77-93 | a whole epoch keeps each invariant: subtype and capacity match, no overlaps on a tail, with respect_pre no flight in a pre-assignment window, and with the two-way onward rule and break_trips off no split trip |
| Backend.EpochInvariants | backend/app.py:74-93 | one epoch started from assignments meeting every invariant that applies ends with assignments meeting them all; the trip invariant applies only under the corrected two-way rule |
| Backend.TripFirstStep | backend/app.py:82-90 | the first flight of the trip example lands on T1 |
| Backend.OnwardRuleOneWay | backend/app.py:85-86 | as written, the rule lets a trip's return leg land on another tail when the outbound leg was placed first |
| Backend.OnwardRuleBothWays | backend/app.py:85-86 | with the rule applied in both directions the return leg is refused on the other tail |
| Backend.RunRl | backend/app.py:62-110 | an error "No flights or aircraft available" iff either list is empty; otherwise one stored result (two in chaos mode, from epochs 11 and 19), all of that mode, with known flights on fleet tails; `rule` chooses the onward rule as written (`OnwardOnly`) or corrected (`BothWays`) |
| Backend.RunRlInvariants | backend/app.py:74-110 | every stored assignment, under either onward rule, is sound and overlap-free and respects pre-assignments when asked; corrected (`BothWays`) with trips not broken, it also keeps each trip on one tail |
| Backend.RunRlBreaksTrip | backend/app.py:85-86 | as written, a normal run whose recorded epoch tries T1 for an outbound leg and T2 for its return leg stores them on two tails although break_trips is off |
| Backend.RuleOf | backend/app.py:85-86 | the corrected program applies the two-way onward rule, the program as written the one-way rule |
| Backend.FilterFlights | backend/app.py:123-125 | the kept flights are an order-preserving subsequence; a flight is kept (with its multiplicity) iff the subtype matches and the departure text is ≥ the start date and the arrival text is ≤ the end date + " 23:59" |
| Backend.FilterAircraft | backend/app.py:126 | the kept aircraft are an order-preserving subsequence: exactly those with a non-empty tail not in the exclude list, each kept with its multiplicity |
| Backend.WholeDayKept | backend/app.py:124-125 | a flight that departs and arrives on the filtered day passes both date filters |
| Backend.ExcludeJoined | backend/app.py:120 | excluding a comma-joined list of tails excludes exactly those tails |
| Backend.NothingExcluded | backend/app.py:120 | without exclude_tails only the empty tail is dropped |
| Backend.ParseFlag | backend/app.py:119 | an absent flag takes its default |
| Backend.FlagsRoundTrip | backend/app.py:119-121 | respect_pre and break_trips read back as the dashboard sent them, and default to true and false |
| Backend.Request | backend/app.py:113-132 | the run fails iff the filters leave no flight or no aircraft; every assignment names a kept flight and a kept tail (under the onward rule of the chosen version) |
| Backend.RequestHonoursFilters | backend/app.py:123-132 | an assigned flight passed the date and subtype filters, and its tail is non-empty and not excluded |
| Backend.FirstOfMode | backend/app.py:135 | the first stored result of that mode, none iff there is none |
| Backend.LastOfMode | backend/app.py:135 | the corrected lookup: the last stored result of that mode, none iff there is none |
| Backend.FirstOfModeAppend | backend/app.py:104 | appending results never changes which one is first |
| Backend.Store | backend/app.py:94-104 | a run appends its results in order after the existing ones; a failed run appends nothing |
| Backend.RespondAsWritten | backend/app.py:135 | as written, once a result of the mode is stored the reply is always that first one; with none stored before, it is the first result of this run |
| Backend.StaleSchedule | backend/app.py:132-135 | concrete case: a second schedule run still answers with the first run's assignments |
| Backend.Respond | backend/app.py:132-135 | corrected: the reply is the result the run just stored |
| Backend.GetSchedule | backend/app.py:113-135 | one normal result is stored after the earlier ones; corrected, it is the one returned; as written, the reply is the first normal result ever stored, which is the new one only when none was stored before |
| Backend.GetDisruptions | backend/app.py:137-159 | two chaos results are stored after the earlier ones; corrected, the later (epoch-19) one is returned; as written, the reply is the first chaos result ever stored, which on a first request is the epoch-11 result |
| Backend.AddRecord | backend/app.py:165-191 | 400 with nothing stored iff a required key is missing; otherwise exactly one record is appended at the end, equal to the data with the optional key added only when absent |
| Backend.AddFlight | backend/app.py:181-191 | the flight version: ten required keys; onward_flight defaults to null |
| Backend.AddAircraft | backend/app.py:165-175 | the aircraft version: five required keys; pre_assignments defaults to [] |
| Backend.AddRecordAgain | backend/app.py:165-191 | posting a stored record again appends it unchanged |
| Backend.GetStatistics | backend/app.py:193-204 | 404 with no results; a division-by-zero error when the latest result has no events; otherwise the count, mean passengers, total carbon and chaos_recovered of the latest result |
| Backend.SumPassengersBounded | backend/app.py:200 | per-event passenger bounds bound the sum |
| Backend.AverageBounded | backend/app.py:200 | per-event passenger bounds bound the average |
| Backend.LatestDecides | backend/app.py:197 | only the latest stored result matters |
| CrewPage.NormalizeCrewId | project_1/components/crew-management-page.jsx:95 | the normalised id is no longer than the input and holds only A–Z and 0–9 |
| CrewPage.NormalizeKeepsAlnum | project_1/components/crew-management-page.jsx:95 | normalising keeps, in order and with their multiplicity, exactly the letters and digits of the upper-cased input |
| CrewPage.NormalizeKeepsNormal | project_1/components/crew-management-page.jsx:95 | an already normal id is unchanged |
| CrewPage.NormalizeIdempotent | project_1/components/crew-management-page.jsx:95 | normalising twice equals normalising once |
| CrewPage.NormalizeExample | project_1/components/crew-management-page.jsx:95 | "a1-b2c" becomes "A1B2C" |
| CrewPage.LiveCrewIdError | project_1/components/crew-management-page.jsx:98-105 | over five characters gives the alphanumeric error; 1–4 gives the length error; exactly 5 clears it; empty leaves it |
| CrewPage.LiveErrorByLength | project_1/components/crew-management-page.jsx:98-105 | on a normalised id the alphanumeric error fires exactly when the length exceeds 5 |
| CrewPage.HandleInputChange | project_1/components/crew-management-page.jsx:88-109 | only the named field changes; crewID is stored normalised and updates the live error; other fields leave the error alone |
| CrewPage.CrewIdFieldStaysNormal | project_1/components/crew-management-page.jsx:88-109 | the crewID field only ever holds A–Z and 0–9 |
| CrewPage.RecordOf | project_1/components/crew-management-page.jsx:134-145 | the submitted record copies the form and parses age and experience as integers |
| CrewPage.HandleSubmit | project_1/components/crew-management-page.jsx:117-182 | not exactly five A–Z0–9 gives the format error and no store call; a taken id gives the duplicate error; otherwise exactly the stored record is appended to the page's list, and the form and the error reset |
| CrewPage.SubmitKeepsIdsDistinct | project_1/components/crew-management-page.jsx:128-150 | the page's crew ids stay pairwise distinct |
| CrewPage.ResubmitIsDuplicate | project_1/components/crew-management-page.jsx:128-131 | submitting the same id again is refused as a duplicate |
| CrewPage.SearchCrew | project_1/components/crew-management-page.jsx:242-248 | an order-preserving sublist of exactly the members whose first name, last name, id or role contains the term, ignoring case, each kept with its multiplicity |
| CrewPage.EmptySearchKeepsAll | project_1/components/crew-management-page.jsx:242-248 | an empty term keeps everyone |
| CrewPage.SearchIgnoresTermCase | project_1/components/crew-management-page.jsx:242-248 | upper-casing the term changes nothing |
| CrewPage.SearchFindsOwnId | project_1/components/crew-management-page.jsx:242-248 | searching a member's own id finds that member |
| CrewPage.FindCrew | project_1/components/crew-management-page.jsx:252 | some member with that id; none iff no member has it |
| CrewPage.FindPageFlight | project_1/components/crew-management-page.jsx:253 | some flight with that id; none iff no flight has it |
| CrewPage.FindCrewFirst | project_1/components/crew-management-page.jsx:252 | the member found is the first with that id |
| CrewPage.FindPageFlightFirst | project_1/components/crew-management-page.jsx:253 | the flight found is the first with that id |
| CrewPage.WithDetails | project_1/components/crew-management-page.jsx:251-263 | one row per assignment in the same order; a found crew member gives "first last" and the role or "Unknown"; a found flight gives "origin → dest" and each time or "Unknown"; an unknown crew member or flight gives the "Unknown" placeholders |
| CrewPage.WithDetailsFilter | project_1/components/crew-management-page.jsx:251-263 | filtering the assignments and then joining equals joining and then filtering the rows |
| CrewPage.RemoveDropsRows | project_1/lib/api.jsx:237-245 | removing an assignment removes exactly its rows from the joined table |
| Disruptions.FirstOther | frontend/components/disruptions-page.jsx:57-60 | the redraw loop ends on a destination that differs from the origin |
| Disruptions.MakeFlight | frontend/components/disruptions-page.jsx:56-79 | one generated flight: id GT(1000+i), origin ≠ destination, departure in its 30-minute slot, flight time 60–239 minutes, 120–219 passengers, ground time 30–119, "On Schedule" |
| Disruptions.GeneratedIdsDistinct | frontend/components/disruptions-page.jsx:69 | flights from different positions have different ids |
| Disruptions.GenerateNormalFlights | frontend/components/disruptions-page.jsx:49-85 | thirty flights, each generated as above, with distinct ids and strictly increasing departures |
| Disruptions.IdRange | frontend/components/disruptions-page.jsx:55-69 | the ids run from GT1000 to GT1029 |
| Disruptions.ChaosAt | frontend/components/disruptions-page.jsx:91-112 | index ≡ 0 mod 3 gives "Disrupted" and carbon × 1.2; otherwise ≡ 0 mod 5 gives "Recovering" and carbon × 0.9; otherwise the flight is unchanged; no other field changes |
| Disruptions.ChaosOf | frontend/components/disruptions-page.jsx:88-91 | the mapping keeps the length and maps each position on its own |
| Disruptions.GenerateChaosFlights | frontend/components/disruptions-page.jsx:87-114 | thirty flights: the normal flights generated from the same draws, mapped by position (carbon ×1.2 and "Disrupted" at multiples of 3, ×0.9 and "Recovering" at other multiples of 5, all else unchanged); ids in order; "On Schedule" iff there is no disruption type |
| Disruptions.FifteenIsDisrupted | frontend/components/disruptions-page.jsx:93-110 | index 15 is "Disrupted" |
| Disruptions.ChaosKeepsOrder | frontend/components/disruptions-page.jsx:88-91 | ids, departures and tails stay at their positions |
| Disruptions.RowClass | frontend/components/disruptions-page.jsx:140-144 | "bg-destructive/10" iff Disrupted, "efficient-flight" iff Recovering, otherwise "" |
| Disruptions.RowClassByPosition | frontend/components/disruptions-page.jsx:93-144 | in chaos mode the row class follows the position alone |
| DataEntryPage.EmptyForm | frontend/components/data-entry-page.jsx:15-36 | the forms open with exactly their fields, all empty |
| DataEntryPage.HandleFlightSubmit | frontend/components/data-entry-page.jsx:40-59 | the error message iff flight_id, origin, dest, dep_time or arr_time is empty; otherwise the loading message, with the form kept for the timer |
| DataEntryPage.HandleAircraftSubmit | frontend/components/data-entry-page.jsx:93-106 | the error message iff tail_num, subtype or capacity is empty; otherwise the loading message |
| DataEntryPage.FlightSaved | frontend/components/data-entry-page.jsx:61-90 | the success message names the submitted flight; every flight field resets to ""; the aircraft form is untouched |
| DataEntryPage.AircraftSaved | frontend/components/data-entry-page.jsx:108-132 | the success message names the submitted tail; every aircraft field resets to ""; the flight form is untouched |
| DataEntryPage.MessageExpired | frontend/components/data-entry-page.jsx:89 | the message clears and both forms stay |
| DataEntryPage.ChangeField | frontend/components/data-entry-page.jsx:135-143 | only the named field changes |
| DataEntryPage.SubtypeNotChecked | frontend/components/data-entry-page.jsx:44-50 | a flight with an empty subtype is still accepted |
| DataEntryPage.AircraftNeedsSubtype | frontend/components/data-entry-page.jsx:97 | an aircraft with an empty subtype is refused |
| DataEntryPage.ResubmitAfterSaveRefused | frontend/components/data-entry-page.jsx:44-86 | after a save, submitting the cleared form is refused |
| DataEntryPage.UncheckedFieldIrrelevant | frontend/components/data-entry-page.jsx:44-50 | editing an unchecked flight field never changes acceptance |
| DataEntryPage.FillingKeepsAccepted | frontend/components/data-entry-page.jsx:44-50 | setting any field to a non-empty value keeps an accepted flight accepted |
| DataEntryRecords.ReplaceFirst | project/src/pages/DataEntry.jsx:33-34 | `replace('T', ' ')` rewrites only the first T and keeps the length |
| DataEntryRecords.Take | project/src/pages/DataEntry.jsx:33-34 | `slice(0, 16)` keeps a prefix of at most 16 characters |
| DataEntryRecords.DateTimeText | project/src/pages/DataEntry.jsx:33-34 | nothing is posted iff the date cannot be formatted; otherwise the first 16 characters of the ISO text (all of it when shorter) with its first T turned into a space |
| DataEntryRecords.IsoToBackendText | project/src/pages/DataEntry.jsx:33-34 | an ISO text becomes "yyyy-mm-dd hh:mm", the format `parse_time` in backend/app.py reads |
| DataEntryRecords.IntJson | project/src/pages/DataEntry.jsx:35-38 | a numeric field is posted as its parsed integer, or null iff it does not parse (the integer is exact; the width of a double is left out) |
| DataEntryRecords.FloatJson | project/src/pages/DataEntry.jsx:75-76 | a fuel field is posted as its parsed number, or null iff it does not parse |
| DataEntryRecords.OnwardJson | project/src/pages/DataEntry.jsx:39 | the onward flight is null iff the field is empty; otherwise the text unchanged |
| DataEntryRecords.PreAssignmentsJson | project/src/pages/DataEntry.jsx:77-79 | an empty field gives []; otherwise exactly one window, from the first dash-separated part to the second, or to "undefined" |
| DataEntryRecords.PreAssignmentsByPosition | project/src/pages/DataEntry.jsx:78 | the window starts with the text before the first '-' and ends with the text between the first and second '-', or "undefined" when there is no '-' |
| DataEntryRecords.PreAssignmentRoundTrip | project/src/pages/DataEntry.jsx:78 | "start-end" gives back the window from start to end |
| DataEntryRecords.ExtraSegmentsDropped | project/src/pages/DataEntry.jsx:78 | text after a second '-' is dropped |
| DataEntryRecords.NoDashEndsUndefined | project/src/pages/DataEntry.jsx:78 | a text with no '-' ends at "2025-03-07 undefined" |
| DataEntryRecords.AsText | project/src/pages/DataEntry.jsx:32 | the spread copies every field as text |
| DataEntryRecords.FlightRecord | project/src/pages/DataEntry.jsx:31-40 | nothing is posted iff a date throws; otherwise the posted record has the form's fields plus the converted ones, copies every unconverted field unchanged, posts both formatted dates, onward_flight or null, and parseInt of min_seating_capacity, ground_time, passengers and distance |
| DataEntryRecords.FlightConversions | project/src/pages/DataEntry.jsx:33-39 | exactly the seven converted flight fields: the two dates, onward_flight or null, and parseInt of the four integer fields |
| DataEntryRecords.AircraftRecord | project/src/pages/DataEntry.jsx:72-80 | the posted aircraft copies every unconverted field, posts parseInt of capacity, parseFloat of base_fuel and efficiency, and the pre_assignments window |
| DataEntryRecords.FlightRecordAccepted | project/src/pages/DataEntry.jsx:31-44 | the backend accepts a flight posted from the complete form and stores its onward flight as shaped, with no default applied |
| DataEntryRecords.AircraftRecordAccepted | project/src/pages/DataEntry.jsx:72-84 | the backend accepts an aircraft posted from the complete form and stores its pre-assignments as shaped |
| DataEntryRecords.FlightSettled | project/src/pages/DataEntry.jsx:46-67 | success resets every flight field to "" with "Flight added successfully!"; failure keeps the form and shows the error; the aircraft form is untouched |
| DataEntryRecords.AircraftSettled | project/src/pages/DataEntry.jsx:86-102 | success resets every aircraft field to "" with "Aircraft added successfully!"; failure keeps the form and shows the error |
| DataEntryRecords.ClearedFormsPostNothing | project/src/pages/DataEntry.jsx:49-96 | after both resets, the forms would post no onward flight and no pre-assignment windows |

## Findings

| source | as written | input that shows it | evidently intended | confidence | as-written member | corrected member |
|---|---|---|---|---|---|---|
| backend/app.py:135 (also 159) | `/schedule` answers with the first stored result of its mode (`next` over the results list), whatever the run just computed | a store that already holds a normal result `F1→T1`, and a new run that assigns `F1→T2`: the reply still says `F1→T1` | the reply is the result the request just computed | medium, not executed | Backend.RespondAsWritten, Backend.StaleSchedule (the reply of Backend.GetSchedule and Backend.GetDisruptions in version `AsWritten`) | Backend.Respond (their reply in version `Corrected`) |
| backend/app.py:85-86 | with break_trips off, the onward rule only checks a flight whose onward flight is *already* assigned; when the outbound leg is placed before its return leg, the return leg may go to any tail | flights F1 (08:00–10:00, onward F2) and F2 (11:30–13:30) with tails T1 and T2 tried in that order: F1→T1, F2→T2, a broken trip | a flight and its onward flight end on the same tail whichever is placed first | medium, not executed | Backend.OnwardRuleOneWay, Backend.RunRlBreaksTrip (rule `OnwardOnly`) | Backend.OnwardRuleBothWays, Backend.EpochKeeps and Backend.RunRlInvariants (rule `BothWays`, version `Corrected`) |

## Left out

- The Q-learning itself: the Q-table, epsilon-greedy draws and rewards. The tail tried per flight and epoch is the input `picks`.
- `calc_co2`, the per-event records, `chaos_recovered` and the epoch-10 carbon factor. Their values never affect validity, but `calc_co2` can raise; see Backend.RunRl below.
- Floating point. Carbon, fuel and averages are exact reals: the schedule page's `carbon / passengers < 100` test, `avg_passengers` in the statistics and the chaos factors 1.2 and 0.9 are computed without rounding.
- DataEntryRecords.IntJson: `parseInt` returns a double, but the model gives the exact integer. A numeral above 2^53 is posted rounded. A numeral of about 309 digits or more parses to `Infinity`, which `JSON.stringify` posts as `null`, so "null iff it does not parse" fails for such text.
- CrewPage.RecordOf: the same double width of `parseInt` applies to age and experience, which the model keeps as exact integers.
- SchedulePage.FlightTooltip: a `null` passenger count is modelled as 0. The division reads `null` as 0, so the tooltip kind and the row classes agree with the source. The text, though, prints `null` where the model prints `0`.
- Number formatting on the statistics pages, and the before/after chaos comparisons.
- Flask routing, JSON file persistence, `fetch`/HTTP, and `localStorage` itself. The stores are values passed in and returned.
- Parsing `new Date(...)` and ISO text, and time zones. Backend times are `Stamp(text, minutes)`; the text serves the string-ordered date filter and the minutes serve the overlap checks, and the two are assumed to agree. DataEntry's `toISOString` and `parseFloat` are parameters.
- `Math.random`: every draw of the generator is an input already scaled and floored, constrained to its range. The toast hook and its random ids are left out.
- Unicode case mapping: `toUpperCase`/`toLowerCase` are ASCII only.
- Backend.IsAvailable: requires every assigned flight id to be known (`KnownOn`). In the source an unknown id raises `StopIteration`, which the model does not represent.
- Backend.Step: requires the tail to exist in the fleet. In the source an unknown tail raises `StopIteration`.
- Backend.Respond: answers with the last stored result of the mode when the run fails. The source would answer with the first one, or raise when there is none.
- Backend.GetStatistics: does not model a stored event whose passengers is `null`. The data-entry page posts `null` for a passengers field that does not parse, `add_flight` stores it, and `run_rl` copies it into the events unread; `sum` at app.py:200 then raises and the reply is a 500. The model's `Event.passengers` is a plain integer.
- Backend.RunRl: does not model the exceptions a run can raise on records the backend accepted. A `null` ground_time fails `timedelta` (app.py:38) and a `null` min_seating_capacity fails the capacity comparison (app.py:83) once the subtype matches. `calc_co2` (app.py:57-59) runs on every tried step and divides by efficiency, so an efficiency of 0 or a `null` distance, base_fuel or efficiency raises. The data-entry page posts such `null`s for fields that do not parse. The model's `Flight` and `Aircraft` hold plain numbers, so these runs are not represented.
- Backend.Request: does not model what follows such an exception. The request fails with status 500, and because app.py:128-134 has no `try`/`finally`, `flights_data` and `aircraft_data` keep the filtered lists for later requests.
- Backend.GetSchedule: as written, a `None` reply stands for the `StopIteration` the source raises when no normal result was ever stored.
- Backend.GetDisruptions: as written, a `None` reply stands for the `StopIteration` the source raises when no chaos result was ever stored.
- Backend.StepSound: requires distinct flight ids (`UniqueIds`), which `add_flight` (app.py:181-191) does not enforce. With two flights of one id the lookups read the first copy, while the loop may assign the second; the invariant can then fail.
- Backend.StepNoOverlap: requires distinct flight ids, for the same reason as StepSound: the overlap check reads the first flight with an id.
- Backend.StepPreRespected: requires distinct flight ids, for the same reason as StepSound.
- Backend.StepTripsKept: requires distinct flight ids, for the same reason as StepSound.
- Backend.StepKeeps: requires distinct flight ids, as the four step lemmas it combines do.
- Backend.EpochKeeps: requires distinct flight ids, as StepKeeps does.
- Backend.EpochInvariants: requires distinct flight ids, as EpochKeeps does.
- Backend.RunRlInvariants: requires distinct flight ids, as EpochInvariants does. Nothing is promised for a flight list with a repeated id.
- A request body that is not a JSON object.
- The disruptions page's duplicate copies in other folders, and the sorted-table comparators. Those comparators never return 0 for equal keys, so sorted output is not specified.
- `handleSelectChange` and the markup, including the crewID input's `maxLength`.
- The wall clocks: `assignedAt` and result timestamps are parameters or absent.
- The 1.5 s save delay and the 3 s message timeout on the data-entry page. These are separate transitions (`FlightSaved`, `AircraftSaved`, `MessageExpired`); their interleaving with edits is not modelled.
- DataEntryPage.FlightSaved: the success text names the *submitted* form, as the timer's closure does. A form edited during the delay is not tracked.
- DataEntryRecords.DateTimeText: depends on `iso`, so its contract speaks of the ISO text and not of a calendar date.
