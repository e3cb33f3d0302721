/**
 * The assignment rules of the Flask backend (backend/app.py): the
 * availability check `is_available`, the per-flight validity test and
 * assignment update inside `run_rl`, the `/schedule` and `/disruptions`
 * request filters, the two POST handlers and `/statistics`.
 *
 * Timestamps are "YYYY-MM-DD HH:MM" strings. The request filter compares
 * them as strings while `is_available` parses them, so a `Stamp` carries
 * both the text and the parsed time in minutes. The Q-learning choice of a
 * tail is not modelled: each epoch is given the sequence of aircraft
 * indices it picks, one per flight, and every property below holds for
 * every such sequence.
 */
module Backend {
  import opened Wrappers
  import opened Text
  import opened Seqs
  import Api

  datatype Stamp = Stamp(text: string, minutes: int)

  /** A pre-assignment block during which an aircraft is unavailable. */
  datatype Window = Window(start: Stamp, end: Stamp)

  datatype Flight = Flight(
    flightId: string, dep: Stamp, arr: Stamp, origin: string, dest: string,
    subtype: string, minSeatingCapacity: int, groundTime: int, passengers: int,
    onwardFlight: Option<string>)

  datatype Aircraft = Aircraft(tailNum: string, subtype: string, capacity: int, preAssignments: seq<Window>)

  /** Flight id to tail number. */
  type Assignments = map<string, string>

  // ---------------------------------------------------------------------
  // Lookups (`next(x for x in xs if ...)`)

  /** The first flight with the given id (see `FindFlightFirst`). */
  function FindFlight(flights: seq<Flight>, id: string): (r: Option<Flight>)
    ensures r.None? <==> forall i :: 0 <= i < |flights| ==> flights[i].flightId != id
    ensures r.Some? ==> r.value in flights && r.value.flightId == id
  {
    if flights == [] then None
    else if flights[0].flightId == id then Some(flights[0])
    else FindFlight(flights[1..], id)
  }

  /** The first aircraft with the given tail number (see `FindAircraftFirst`). */
  function FindAircraft(aircraft: seq<Aircraft>, tail: string): (r: Option<Aircraft>)
    ensures r.None? <==> forall i :: 0 <= i < |aircraft| ==> aircraft[i].tailNum != tail
    ensures r.Some? ==> r.value in aircraft && r.value.tailNum == tail
  {
    if aircraft == [] then None
    else if aircraft[0].tailNum == tail then Some(aircraft[0])
    else FindAircraft(aircraft[1..], tail)
  }

  /** The flight found is the first with the id: no earlier flight has it. */
  lemma {:induction false} FindFlightFirst(flights: seq<Flight>, id: string)
    ensures FindFlight(flights, id).Some? ==>
      exists i :: 0 <= i < |flights| && flights[i] == FindFlight(flights, id).value
        && forall j :: 0 <= j < i ==> flights[j].flightId != id
  {
    if flights != [] && flights[0].flightId != id && FindFlight(flights, id).Some? {
      FindFlightFirst(flights[1..], id);
      var i :| 0 <= i < |flights[1..]| && flights[1..][i] == FindFlight(flights, id).value
        && forall j :: 0 <= j < i ==> flights[1..][j].flightId != id;
      assert flights[i + 1] == FindFlight(flights, id).value;
      assert forall j :: 0 <= j < i + 1 ==> flights[j].flightId != id by {
        forall j | 0 < j < i + 1 ensures flights[j].flightId != id {
          assert flights[j] == flights[1..][j - 1];
        }
      }
    }
  }

  /** The aircraft found is the first with the tail number. */
  lemma {:induction false} FindAircraftFirst(aircraft: seq<Aircraft>, tail: string)
    ensures FindAircraft(aircraft, tail).Some? ==>
      exists i :: 0 <= i < |aircraft| && aircraft[i] == FindAircraft(aircraft, tail).value
        && forall j :: 0 <= j < i ==> aircraft[j].tailNum != tail
  {
    if aircraft != [] && aircraft[0].tailNum != tail && FindAircraft(aircraft, tail).Some? {
      FindAircraftFirst(aircraft[1..], tail);
      var i :| 0 <= i < |aircraft[1..]| && aircraft[1..][i] == FindAircraft(aircraft, tail).value
        && forall j :: 0 <= j < i ==> aircraft[1..][j].tailNum != tail;
      assert aircraft[i + 1] == FindAircraft(aircraft, tail).value;
      assert forall j :: 0 <= j < i + 1 ==> aircraft[j].tailNum != tail by {
        forall j | 0 < j < i + 1 ensures aircraft[j].tailNum != tail {
          assert aircraft[j] == aircraft[1..][j - 1];
        }
      }
    }
  }

  predicate UniqueIds(flights: seq<Flight>) {
    forall i, j :: 0 <= i < j < |flights| ==> flights[i].flightId != flights[j].flightId
  }

  /** With unique ids, looking a listed flight up by its id finds that very flight. */
  lemma {:induction false} FindFlightUnique(flights: seq<Flight>, i: nat)
    requires UniqueIds(flights) && i < |flights|
    ensures FindFlight(flights, flights[i].flightId) == Some(flights[i])
  {
    if i > 0 {
      assert flights[0].flightId != flights[i].flightId;
      assert flights[1..][i - 1] == flights[i];
      FindFlightUnique(flights[1..], i - 1);
    }
  }

  // ---------------------------------------------------------------------
  // is_available

  /** The candidate `f` and an already assigned flight `other` are far enough apart,
      padding both with the candidate's ground time. */
  predicate Clear(f: Flight, other: Flight) {
    f.arr.minutes + f.groundTime <= other.dep.minutes || other.arr.minutes + f.groundTime <= f.dep.minutes
  }

  /** The flight lies outside a pre-assignment block; touching an end is allowed. */
  predicate OutsideWindow(f: Flight, w: Window) {
    f.arr.minutes <= w.start.minutes || f.dep.minutes >= w.end.minutes
  }

  /** Every flight assigned to `tail` can be looked up (otherwise `next` raises). */
  predicate KnownOn(flights: seq<Flight>, asg: Assignments, tail: string) {
    forall id :: id in asg && asg[id] == tail ==> FindFlight(flights, id).Some?
  }

  /** Every assigned flight can be looked up. */
  predicate Known(flights: seq<Flight>, asg: Assignments) {
    forall id :: id in asg ==> FindFlight(flights, id).Some?
  }

  /** Declarative reading of `is_available`: clear of every flight on the same tail, and,
      when pre-assignments are respected, the aircraft exists and the flight is outside
      each of its blocks. */
  predicate Available(tail: string, f: Flight, asg: Assignments, flights: seq<Flight>,
                      aircraft: seq<Aircraft>, respectPre: bool)
    requires KnownOn(flights, asg, tail)
  {
    (forall id :: id in asg && asg[id] == tail ==> Clear(f, FindFlight(flights, id).value))
    && (respectPre ==>
          match FindAircraft(aircraft, tail)
          case None => false
          case Some(a) => forall i :: 0 <= i < |a.preAssignments| ==> OutsideWindow(f, a.preAssignments[i]))
  }

  /** `is_available`: the loop over the assignments, then the loop over the blocks. */
  method IsAvailable(tail: string, f: Flight, asg: Assignments, flights: seq<Flight>,
                     aircraft: seq<Aircraft>, respectPre: bool) returns (ok: bool)
    requires KnownOn(flights, asg, tail)
    ensures ok == Available(tail, f, asg, flights, aircraft, respectPre)
  {
    var todo := asg.Keys;
    while todo != {}
      invariant todo <= asg.Keys
      invariant forall id :: id in asg && id !in todo && asg[id] == tail ==> Clear(f, FindFlight(flights, id).value)
      decreases todo
    {
      var id :| id in todo;
      if asg[id] == tail {
        var other := FindFlight(flights, id).value;
        if !Clear(f, other) {
          return false;
        }
      }
      todo := todo - {id};
    }
    if respectPre {
      var found := FindAircraft(aircraft, tail);
      if found.None? {
        return false;
      }
      var blocks := found.value.preAssignments;
      var i := 0;
      while i < |blocks|
        invariant 0 <= i <= |blocks|
        invariant forall j :: 0 <= j < i ==> OutsideWindow(f, blocks[j])
      {
        if !OutsideWindow(f, blocks[i]) {
          return false;
        }
        i := i + 1;
      }
    }
    return true;
  }

  /** Only the flights assigned to the tail in question matter. */
  lemma OtherTailsIgnored(tail: string, f: Flight, a: Assignments, b: Assignments, flights: seq<Flight>,
                          aircraft: seq<Aircraft>, respectPre: bool)
    requires forall id :: (id in a && a[id] == tail) <==> (id in b && b[id] == tail)
    requires KnownOn(flights, a, tail)
    ensures KnownOn(flights, b, tail)
    ensures Available(tail, f, a, flights, aircraft, respectPre) == Available(tail, f, b, flights, aircraft, respectPre)
  {
  }

  /** Without `respect_pre` the aircraft list is not consulted at all. */
  lemma FleetIgnoredWithoutPre(tail: string, f: Flight, asg: Assignments, flights: seq<Flight>,
                               fleet1: seq<Aircraft>, fleet2: seq<Aircraft>)
    requires KnownOn(flights, asg, tail)
    ensures Available(tail, f, asg, flights, fleet1, false) == Available(tail, f, asg, flights, fleet2, false)
  {
  }

  /** With `respect_pre`, a tail missing from the aircraft list is never available. */
  lemma MissingAircraftUnavailable(tail: string, f: Flight, asg: Assignments, flights: seq<Flight>,
                                   aircraft: seq<Aircraft>)
    requires KnownOn(flights, asg, tail)
    requires forall i :: 0 <= i < |aircraft| ==> aircraft[i].tailNum != tail
    ensures !Available(tail, f, asg, flights, aircraft, true)
  {
  }

  /** Real time `t` lies strictly inside the interval from `lo` to `hi` minutes. */
  ghost predicate Busy(t: real, lo: int, hi: int) {
    lo as real < t < hi as real
  }

  /** Two non-empty open intervals are disjoint exactly when one ends no later than the other starts. */
  lemma OpenDisjoint(a: int, b: int, c: int, d: int)
    requires a < b && c < d
    ensures (b <= c || d <= a) <==> forall t: real :: !(Busy(t, a, b) && Busy(t, c, d))
  {
    if !(b <= c || d <= a) {
      var lo := if a < c then c else a;
      var hi := if b < d then b else d;
      var t := (lo as real + hi as real) / 2.0;
      assert Busy(t, a, b) && Busy(t, c, d);
    }
  }

  /** `OutsideWindow` is disjointness of the flight and the block as open intervals,
      so a flight may end exactly when a block starts or start exactly when it ends. */
  lemma OutsideWindowIsDisjoint(f: Flight, w: Window)
    requires f.dep.minutes < f.arr.minutes && w.start.minutes < w.end.minutes
    ensures OutsideWindow(f, w) <==>
      forall t: real :: !(Busy(t, f.dep.minutes, f.arr.minutes) && Busy(t, w.start.minutes, w.end.minutes))
  {
    OpenDisjoint(f.dep.minutes, f.arr.minutes, w.start.minutes, w.end.minutes);
  }

  /** The end of a flight's interval extended by `ground` minutes. */
  function PaddedEnd(x: Flight, ground: int): int {
    x.arr.minutes + ground
  }

  /** `Clear` is disjointness of both flights' intervals, each extended at its end by the
      candidate's ground time. */
  lemma ClearIsDisjoint(f: Flight, other: Flight)
    requires f.dep.minutes < PaddedEnd(f, f.groundTime)
    requires other.dep.minutes < PaddedEnd(other, f.groundTime)
    ensures Clear(f, other) <==>
      forall t: real :: !(Busy(t, f.dep.minutes, PaddedEnd(f, f.groundTime))
                          && Busy(t, other.dep.minutes, PaddedEnd(other, f.groundTime)))
  {
    OpenDisjoint(f.dep.minutes, PaddedEnd(f, f.groundTime), other.dep.minutes, PaddedEnd(other, f.groundTime));
  }

  // ---------------------------------------------------------------------
  // One step of run_rl

  /** How the onward-flight rule is applied when trips may not be broken. */
  datatype TripRule =
    | OnwardOnly  // only a flight whose onward flight is already assigned is checked
    | BothWays    // also a flight that is itself the onward flight of an assigned one

  /** The onward flight when it is truthy (present and non-empty). */
  function Onward(f: Flight): (r: Option<string>)
    ensures r.Some? <==> f.onwardFlight.Some? && f.onwardFlight.value != ""
    ensures r.Some? ==> r == f.onwardFlight
  {
    match f.onwardFlight
    case Some(o) => if o != "" then Some(o) else None
    case None => None
  }

  /** The truthy onward flight of the flight with the given id. */
  function OnwardOfId(flights: seq<Flight>, id: string): Option<string> {
    match FindFlight(flights, id)
    case Some(g) => Onward(g)
    case None => None
  }

  /** Matching subtype and enough seats. */
  predicate Compatible(f: Flight, a: Aircraft) {
    f.subtype == a.subtype && a.capacity >= f.minSeatingCapacity
  }

  /** The onward-flight rule for putting `f` on `tail`. */
  predicate TripOk(f: Flight, tail: string, cur: Assignments, flights: seq<Flight>, breakTrips: bool, rule: TripRule)
    requires Known(flights, cur)
  {
    breakTrips ||
    ((Onward(f).Some? && Onward(f).value in cur ==> cur[Onward(f).value] == tail)
     && (rule == BothWays ==>
           forall id :: id in cur && OnwardOfId(flights, id) == Some(f.flightId) ==> cur[id] == tail))
  }

  /** `valid` in `run_rl`: subtype, capacity, availability and the onward-flight rule. */
  predicate StepValid(f: Flight, tail: string, cur: Assignments, flights: seq<Flight>, aircraft: seq<Aircraft>,
                      respectPre: bool, breakTrips: bool, rule: TripRule)
    requires Known(flights, cur) && FindAircraft(aircraft, tail).Some?
  {
    Compatible(f, FindAircraft(aircraft, tail).value)
    && Available(tail, f, cur, flights, aircraft, respectPre)
    && TripOk(f, tail, cur, flights, breakTrips, rule)
  }

  /** The assignment update: `f` goes onto `tail` only when the step is valid. */
  function Step(f: Flight, tail: string, cur: Assignments, flights: seq<Flight>, aircraft: seq<Aircraft>,
                respectPre: bool, breakTrips: bool, rule: TripRule): (r: Assignments)
    requires Known(flights, cur) && FindAircraft(aircraft, tail).Some?
    ensures forall id :: id != f.flightId ==> (id in r <==> id in cur) && (id in r ==> r[id] == cur[id])
    ensures (f.flightId in r && r[f.flightId] == tail) <==>
      StepValid(f, tail, cur, flights, aircraft, respectPre, breakTrips, rule) || (f.flightId in cur && cur[f.flightId] == tail)
    ensures (f.flightId in r) <==> StepValid(f, tail, cur, flights, aircraft, respectPre, breakTrips, rule) || f.flightId in cur
  {
    if StepValid(f, tail, cur, flights, aircraft, respectPre, breakTrips, rule) then cur[f.flightId := tail] else cur
  }

  /** Every pick names an aircraft. */
  predicate PicksFit(picks: seq<nat>, flights: seq<Flight>, aircraft: seq<Aircraft>) {
    |picks| == |flights| && forall j :: 0 <= j < |picks| ==> picks[j] < |aircraft|
  }

  /** Every assigned tail is in the aircraft list. */
  predicate OnFleet(aircraft: seq<Aircraft>, asg: Assignments) {
    forall id :: id in asg ==> FindAircraft(aircraft, asg[id]).Some?
  }

  /** One epoch of `run_rl` from flight `i` on: each flight in list order is tried on the
      tail its pick names, starting from the assignments `cur`. */
  function EpochFrom(i: nat, flights: seq<Flight>, picks: seq<nat>, aircraft: seq<Aircraft>, cur: Assignments,
                     respectPre: bool, breakTrips: bool, rule: TripRule): (r: Assignments)
    requires i <= |flights| && PicksFit(picks, flights, aircraft) && Known(flights, cur)
    ensures Known(flights, r)
    ensures OnFleet(aircraft, cur) ==> OnFleet(aircraft, r)
    decreases |flights| - i
  {
    if i == |flights| then cur
    else
      var tail := aircraft[picks[i]].tailNum;
      assert FindAircraft(aircraft, tail).Some?;
      var next := Step(flights[i], tail, cur, flights, aircraft, respectPre, breakTrips, rule);
      EpochFrom(i + 1, flights, picks, aircraft, next, respectPre, breakTrips, rule)
  }

  /** An epoch never drops an assignment. */
  lemma {:induction false} EpochFromKeeps(i: nat, flights: seq<Flight>, picks: seq<nat>, aircraft: seq<Aircraft>,
                                          cur: Assignments, respectPre: bool, breakTrips: bool, rule: TripRule, id: string)
    requires i <= |flights| && PicksFit(picks, flights, aircraft) && Known(flights, cur)
    requires id in cur
    ensures id in EpochFrom(i, flights, picks, aircraft, cur, respectPre, breakTrips, rule)
    decreases |flights| - i
  {
    if i < |flights| {
      var tail := aircraft[picks[i]].tailNum;
      assert FindAircraft(aircraft, tail).Some?;
      var next := Step(flights[i], tail, cur, flights, aircraft, respectPre, breakTrips, rule);
      StepFrame(flights[i], tail, cur, flights, aircraft, respectPre, breakTrips, rule, id);
      EpochFromKeeps(i + 1, flights, picks, aircraft, next, respectPre, breakTrips, rule, id);
    }
  }

  /** No flight from position `i` on has the id `id`. */
  predicate Unvisited(flights: seq<Flight>, i: nat, id: string)
    decreases |flights| - i
  {
    i >= |flights| || (flights[i].flightId != id && Unvisited(flights, i + 1, id))
  }

  /** `Unvisited` agrees with its declarative reading. */
  lemma {:induction false} UnvisitedMeans(flights: seq<Flight>, i: nat, id: string)
    ensures Unvisited(flights, i, id) <==> forall j :: i <= j < |flights| ==> flights[j].flightId != id
    decreases |flights| - i
  {
    if i < |flights| {
      UnvisitedMeans(flights, i + 1, id);
    }
  }

  /** An epoch leaves alone every assigned flight it does not visit. */
  lemma {:induction false} EpochFromUntouched(i: nat, flights: seq<Flight>, picks: seq<nat>, aircraft: seq<Aircraft>,
                                              cur: Assignments, respectPre: bool, breakTrips: bool, rule: TripRule,
                                              id: string)
    requires i <= |flights| && PicksFit(picks, flights, aircraft) && Known(flights, cur)
    requires id in cur && Unvisited(flights, i, id)
    ensures var r := EpochFrom(i, flights, picks, aircraft, cur, respectPre, breakTrips, rule);
      id in r && r[id] == cur[id]
    decreases |flights| - i
  {
    if i < |flights| {
      var tail := aircraft[picks[i]].tailNum;
      assert FindAircraft(aircraft, tail).Some?;
      var next := Step(flights[i], tail, cur, flights, aircraft, respectPre, breakTrips, rule);
      StepFrame(flights[i], tail, cur, flights, aircraft, respectPre, breakTrips, rule, id);
      EpochFromUntouched(i + 1, flights, picks, aircraft, next, respectPre, breakTrips, rule, id);
    }
  }

  /** A step keeps the assignment of every other flight. */
  lemma StepFrame(f: Flight, tail: string, cur: Assignments, flights: seq<Flight>, aircraft: seq<Aircraft>,
                  respectPre: bool, breakTrips: bool, rule: TripRule, id: string)
    requires Known(flights, cur) && FindAircraft(aircraft, tail).Some? && id in cur
    ensures var r := Step(f, tail, cur, flights, aircraft, respectPre, breakTrips, rule);
      id in r && (id != f.flightId ==> r[id] == cur[id])
  {
  }

  // ---------------------------------------------------------------------
  // Invariants of the assignments

  /** Every assignment matches subtype and capacity. */
  ghost predicate Sound(flights: seq<Flight>, aircraft: seq<Aircraft>, m: Assignments)
    requires Known(flights, m)
  {
    forall id :: id in m ==>
      FindAircraft(aircraft, m[id]).Some? && Compatible(FindFlight(flights, id).value, FindAircraft(aircraft, m[id]).value)
  }

  /** Either flight of a pair is far enough from the other. */
  predicate Separated(x: Flight, y: Flight) {
    Clear(x, y) || Clear(y, x)
  }

  /** No two flights on the same tail overlap. */
  ghost predicate NoOverlap(flights: seq<Flight>, m: Assignments)
    requires Known(flights, m)
  {
    forall id1, id2 :: id1 in m && id2 in m && id1 != id2 && m[id1] == m[id2] ==>
      Separated(FindFlight(flights, id1).value, FindFlight(flights, id2).value)
  }

  /** Every assigned flight is outside the blocks of its aircraft. */
  ghost predicate PreRespected(flights: seq<Flight>, aircraft: seq<Aircraft>, m: Assignments)
    requires Known(flights, m)
  {
    forall id :: id in m ==>
      FindAircraft(aircraft, m[id]).Some? &&
      forall k :: 0 <= k < |FindAircraft(aircraft, m[id]).value.preAssignments| ==>
        OutsideWindow(FindFlight(flights, id).value, FindAircraft(aircraft, m[id]).value.preAssignments[k])
  }

  /** A flight and its assigned onward flight sit on the same tail. */
  ghost predicate TripsKept(flights: seq<Flight>, m: Assignments) {
    forall id, o :: id in m && o in m && OnwardOfId(flights, id) == Some(o) ==> m[o] == m[id]
  }

  lemma StepSound(i: nat, tail: string, cur: Assignments, flights: seq<Flight>, aircraft: seq<Aircraft>,
                  respectPre: bool, breakTrips: bool, rule: TripRule)
    requires i < |flights| && UniqueIds(flights) && Known(flights, cur) && FindAircraft(aircraft, tail).Some?
    requires Sound(flights, aircraft, cur)
    ensures Known(flights, Step(flights[i], tail, cur, flights, aircraft, respectPre, breakTrips, rule))
    ensures Sound(flights, aircraft, Step(flights[i], tail, cur, flights, aircraft, respectPre, breakTrips, rule))
  {
    FindFlightUnique(flights, i);
  }

  lemma StepNoOverlap(i: nat, tail: string, cur: Assignments, flights: seq<Flight>, aircraft: seq<Aircraft>,
                      respectPre: bool, breakTrips: bool, rule: TripRule)
    requires i < |flights| && UniqueIds(flights) && Known(flights, cur) && FindAircraft(aircraft, tail).Some?
    requires NoOverlap(flights, cur)
    ensures Known(flights, Step(flights[i], tail, cur, flights, aircraft, respectPre, breakTrips, rule))
    ensures NoOverlap(flights, Step(flights[i], tail, cur, flights, aircraft, respectPre, breakTrips, rule))
  {
    var f := flights[i];
    FindFlightUnique(flights, i);
    var r := Step(f, tail, cur, flights, aircraft, respectPre, breakTrips, rule);
    if StepValid(f, tail, cur, flights, aircraft, respectPre, breakTrips, rule) {
      forall id1, id2 | id1 in r && id2 in r && id1 != id2 && r[id1] == r[id2]
        ensures Separated(FindFlight(flights, id1).value, FindFlight(flights, id2).value)
      {
        if id1 == f.flightId {
          assert cur[id2] == tail;
          assert Clear(f, FindFlight(flights, id2).value);
        } else if id2 == f.flightId {
          assert cur[id1] == tail;
          assert Clear(f, FindFlight(flights, id1).value);
        }
      }
    }
  }

  lemma StepPreRespected(i: nat, tail: string, cur: Assignments, flights: seq<Flight>, aircraft: seq<Aircraft>,
                         breakTrips: bool, rule: TripRule)
    requires i < |flights| && UniqueIds(flights) && Known(flights, cur) && FindAircraft(aircraft, tail).Some?
    requires PreRespected(flights, aircraft, cur)
    ensures Known(flights, Step(flights[i], tail, cur, flights, aircraft, true, breakTrips, rule))
    ensures PreRespected(flights, aircraft, Step(flights[i], tail, cur, flights, aircraft, true, breakTrips, rule))
  {
    FindFlightUnique(flights, i);
  }

  lemma StepTripsKept(i: nat, tail: string, cur: Assignments, flights: seq<Flight>, aircraft: seq<Aircraft>,
                      respectPre: bool, breakTrips: bool, rule: TripRule)
    requires i < |flights| && UniqueIds(flights) && Known(flights, cur) && FindAircraft(aircraft, tail).Some?
    requires !breakTrips && rule == BothWays
    requires TripsKept(flights, cur)
    ensures Known(flights, Step(flights[i], tail, cur, flights, aircraft, respectPre, breakTrips, rule))
    ensures TripsKept(flights, Step(flights[i], tail, cur, flights, aircraft, respectPre, breakTrips, rule))
  {
    var f := flights[i];
    FindFlightUnique(flights, i);
    var r := Step(f, tail, cur, flights, aircraft, respectPre, breakTrips, rule);
    if StepValid(f, tail, cur, flights, aircraft, respectPre, breakTrips, rule) {
      forall id, o | id in r && o in r && OnwardOfId(flights, id) == Some(o)
        ensures r[o] == r[id]
      {
        if id == f.flightId {
          if o != f.flightId {
            assert o in cur;
          }
        } else if o == f.flightId {
          assert id in cur;
        } else {
          assert id in cur && o in cur;
        }
      }
    }
  }

  /** The conditions under which an epoch is defined. */
  predicate EpochReady(i: nat, flights: seq<Flight>, picks: seq<nat>, aircraft: seq<Aircraft>, cur: Assignments) {
    i <= |flights| && PicksFit(picks, flights, aircraft) && Known(flights, cur)
  }

  /** The four assignment invariants, by name. */
  datatype Invariant = SoundInv | NoOverlapInv | PreInv | TripsInv

  /** The invariant `inv` holds of the assignments `m`. */
  ghost predicate Holds(inv: Invariant, flights: seq<Flight>, aircraft: seq<Aircraft>, m: Assignments)
    requires Known(flights, m)
  {
    match inv
    case SoundInv => Sound(flights, aircraft, m)
    case NoOverlapInv => NoOverlap(flights, m)
    case PreInv => PreRespected(flights, aircraft, m)
    case TripsInv => TripsKept(flights, m)
  }

  /** The settings under which a step keeps `inv`: blocks only matter with `respect_pre`,
      trips only with `break_trips` off and the two-way onward rule. */
  predicate Applies(inv: Invariant, respectPre: bool, breakTrips: bool, rule: TripRule) {
    match inv
    case PreInv => respectPre
    case TripsInv => !breakTrips && rule == BothWays
    case _ => true
  }

  lemma StepKeeps(inv: Invariant, i: nat, tail: string, cur: Assignments, flights: seq<Flight>,
                  aircraft: seq<Aircraft>, respectPre: bool, breakTrips: bool, rule: TripRule)
    requires i < |flights| && UniqueIds(flights) && Known(flights, cur) && FindAircraft(aircraft, tail).Some?
    requires Applies(inv, respectPre, breakTrips, rule) && Holds(inv, flights, aircraft, cur)
    ensures Known(flights, Step(flights[i], tail, cur, flights, aircraft, respectPre, breakTrips, rule))
    ensures Holds(inv, flights, aircraft, Step(flights[i], tail, cur, flights, aircraft, respectPre, breakTrips, rule))
  {
    match inv
    case SoundInv => StepSound(i, tail, cur, flights, aircraft, respectPre, breakTrips, rule);
    case NoOverlapInv => StepNoOverlap(i, tail, cur, flights, aircraft, respectPre, breakTrips, rule);
    case PreInv => StepPreRespected(i, tail, cur, flights, aircraft, breakTrips, rule);
    case TripsInv => StepTripsKept(i, tail, cur, flights, aircraft, respectPre, breakTrips, rule);
  }

  /** Every epoch keeps each invariant under the settings it applies to: assignments match
      subtype and capacity, no two overlapping flights share a tail, with `respect_pre` no
      flight sits inside a block of its aircraft, and with the two-way rule and `break_trips`
      off no trip is split. */
  lemma {:induction false} EpochKeeps(inv: Invariant, i: nat, flights: seq<Flight>, picks: seq<nat>,
                                      aircraft: seq<Aircraft>, cur: Assignments, respectPre: bool, breakTrips: bool,
                                      rule: TripRule)
    requires EpochReady(i, flights, picks, aircraft, cur) && UniqueIds(flights)
    requires Applies(inv, respectPre, breakTrips, rule) && Holds(inv, flights, aircraft, cur)
    ensures Holds(inv, flights, aircraft, EpochFrom(i, flights, picks, aircraft, cur, respectPre, breakTrips, rule))
    decreases |flights| - i
  {
    if i < |flights| {
      var tail := aircraft[picks[i]].tailNum;
      assert FindAircraft(aircraft, tail).Some?;
      var next := Step(flights[i], tail, cur, flights, aircraft, respectPre, breakTrips, rule);
      StepKeeps(inv, i, tail, cur, flights, aircraft, respectPre, breakTrips, rule);
      EpochKeeps(inv, i + 1, flights, picks, aircraft, next, respectPre, breakTrips, rule);
    }
  }

  // ---------------------------------------------------------------------
  // The onward-flight rule as written

  const TripOut := Flight("F1", Stamp("2025-03-07 08:00", 480), Stamp("2025-03-07 10:00", 600), "JFK", "LAX",
                          "A320", 150, 30, 140, Some("F2"))
  const TripBack := Flight("F2", Stamp("2025-03-07 11:30", 690), Stamp("2025-03-07 13:30", 810), "LAX", "JFK",
                           "A320", 150, 30, 140, None)
  const TwoTails := [Aircraft("T1", "A320", 180, []), Aircraft("T2", "A320", 180, [])]

  /** F1 on T1 is a valid first step under either rule. */
  lemma TripFirstStep(rule: TripRule)
    ensures FindAircraft(TwoTails, "T1") == Some(TwoTails[0])
    ensures Step(TripOut, "T1", map[], [TripOut, TripBack], TwoTails, false, false, rule) == map["F1" := "T1"]
  {
    var flights := [TripOut, TripBack];
    var empty: Assignments := map[];
    assert Available("T1", TripOut, empty, flights, TwoTails, false);
    assert TripOk(TripOut, "T1", empty, flights, false, rule);
  }

  /** As written, the outbound flight is checked only against an onward flight that is
      already assigned. The onward flight, listed later, has no onward flight of its own, so
      nothing stops it from landing on another tail: F1 goes to T1, F2 to T2, and the trip is
      broken although `break_trips` is off. */
  lemma OnwardRuleOneWay()
    ensures EpochFrom(0, [TripOut, TripBack], [0, 1], TwoTails, map[], false, false, OnwardOnly)
      == map["F1" := "T1", "F2" := "T2"]
    ensures !TripsKept([TripOut, TripBack], map["F1" := "T1", "F2" := "T2"])
  {
    var flights := [TripOut, TripBack];
    var empty: Assignments := map[];
    EpochOfTwo(flights, [0, 1], TwoTails, empty, false, false, OnwardOnly);
    TripFirstStep(OnwardOnly);
    TripSecondStepOneWay();
    assert OnwardOfId(flights, "F1") == Some("F2");
  }

  /** An epoch over two flights is the two steps in turn. */
  lemma EpochOfTwo(flights: seq<Flight>, picks: seq<nat>, aircraft: seq<Aircraft>, cur: Assignments,
                   respectPre: bool, breakTrips: bool, rule: TripRule)
    requires |flights| == 2 && PicksFit(picks, flights, aircraft) && Known(flights, cur)
    ensures var t0 := aircraft[picks[0]].tailNum;
      var t1 := aircraft[picks[1]].tailNum;
      FindAircraft(aircraft, t0).Some? && FindAircraft(aircraft, t1).Some?
      && Known(flights, Step(flights[0], t0, cur, flights, aircraft, respectPre, breakTrips, rule))
      && EpochFrom(0, flights, picks, aircraft, cur, respectPre, breakTrips, rule)
         == Step(flights[1], t1, Step(flights[0], t0, cur, flights, aircraft, respectPre, breakTrips, rule),
                 flights, aircraft, respectPre, breakTrips, rule)
  {
    var t0 := aircraft[picks[0]].tailNum;
    var t1 := aircraft[picks[1]].tailNum;
    assert FindAircraft(aircraft, t0).Some? && FindAircraft(aircraft, t1).Some?;
    var m1 := Step(flights[0], t0, cur, flights, aircraft, respectPre, breakTrips, rule);
    var m2 := Step(flights[1], t1, m1, flights, aircraft, respectPre, breakTrips, rule);
    assert EpochFrom(2, flights, picks, aircraft, m2, respectPre, breakTrips, rule) == m2;
    assert EpochFrom(1, flights, picks, aircraft, m1, respectPre, breakTrips, rule) == m2;
  }

  /** As written, F2 on T2 is a valid second step. */
  lemma TripSecondStepOneWay()
    ensures FindAircraft(TwoTails, "T2") == Some(TwoTails[1])
    ensures Step(TripBack, "T2", map["F1" := "T1"], [TripOut, TripBack], TwoTails, false, false, OnwardOnly)
      == map["F1" := "T1", "F2" := "T2"]
  {
    var flights := [TripOut, TripBack];
    var m1 := map["F1" := "T1"];
    assert FindAircraft(TwoTails, "T2") == Some(TwoTails[1]);
    assert FindFlight(flights, "F1") == Some(TripOut);
    assert Available("T2", TripBack, m1, flights, TwoTails, false);
    assert StepValid(TripBack, "T2", m1, flights, TwoTails, false, false, OnwardOnly);
  }

  /** With the two-way rule the same picks keep F2 off T2. */
  lemma OnwardRuleBothWays()
    ensures EpochFrom(0, [TripOut, TripBack], [0, 1], TwoTails, map[], false, false, BothWays) == map["F1" := "T1"]
  {
    var flights := [TripOut, TripBack];
    var empty: Assignments := map[];
    var m1 := map["F1" := "T1"];
    EpochOfTwo(flights, [0, 1], TwoTails, empty, false, false, BothWays);
    TripFirstStep(BothWays);
    assert FindAircraft(TwoTails, "T2") == Some(TwoTails[1]);
    assert FindFlight(flights, "F1") == Some(TripOut);
    assert !TripOk(TripBack, "T2", m1, flights, false, BothWays) by {
      assert "F1" in m1 && OnwardOfId(flights, "F1") == Some("F2") && m1["F1"] != "T2";
    }
  }

  // ---------------------------------------------------------------------
  // run_rl

  datatype Mode = Normal | Chaos

  /** A stored result: its mode and the assignments it recorded. */
  datatype Outcome = Outcome(mode: Mode, assignments: Assignments)

  /** The epoch at which a chaos run records its first result. */
  const ChaosEpoch := 11
  const LastEpoch := 19

  /** Picks for each of the twenty epochs. */
  predicate EpochPicksFit(picks: seq<seq<nat>>, flights: seq<Flight>, aircraft: seq<Aircraft>) {
    |picks| == LastEpoch + 1 && forall e :: 0 <= e < |picks| ==> PicksFit(picks[e], flights, aircraft)
  }

  /** The program as written, or with the two defects it evidently did not intend fixed:
      the one-way onward rule and the reply with the first stored result of a mode. */
  datatype Version = AsWritten | Corrected

  /** The onward-flight rule of each version. */
  function RuleOf(v: Version): (r: TripRule)
    ensures r == BothWays <==> v == Corrected
  {
    match v
    case AsWritten => OnwardOnly
    case Corrected => BothWays
  }

  /** `run_rl`: an error on an empty flight or aircraft list, otherwise the results it appends
      to the results store. Only the epochs that record something matter: a normal run
      records epoch 19 started from no assignments; a chaos run records epoch 11, and epoch 19
      started from epoch 11's assignments. `rule` is `OnwardOnly` as written. */
  function RunRl(flights: seq<Flight>, aircraft: seq<Aircraft>, picks: seq<seq<nat>>,
                 chaos: bool, respectPre: bool, breakTrips: bool, rule: TripRule): (r: Result<seq<Outcome>, string>)
    requires flights != [] && aircraft != [] ==> EpochPicksFit(picks, flights, aircraft)
    ensures r.Err? <==> flights == [] || aircraft == []
    ensures r.Err? ==> r.error == "No flights or aircraft available"
    ensures r.Ok? ==> |r.value| == (if chaos then 2 else 1)
    ensures r.Ok? ==> forall k :: 0 <= k < |r.value| ==>
      r.value[k].mode == (if chaos then Chaos else Normal)
      && Known(flights, r.value[k].assignments) && OnFleet(aircraft, r.value[k].assignments)
  {
    if flights == [] || aircraft == [] then Err("No flights or aircraft available")
    else if !chaos then
      Ok([Outcome(Normal, EpochFrom(0, flights, picks[LastEpoch], aircraft, map[], respectPre, breakTrips, rule))])
    else
      var first := EpochFrom(0, flights, picks[ChaosEpoch], aircraft, map[], respectPre, breakTrips, rule);
      Ok([Outcome(Chaos, first),
          Outcome(Chaos, EpochFrom(0, flights, picks[LastEpoch], aircraft, first, respectPre, breakTrips, rule))])
  }

  /** Every recorded result satisfies the assignment invariants, whatever tails were picked;
      trips are kept only under the two-way onward rule. */
  lemma RunRlInvariants(flights: seq<Flight>, aircraft: seq<Aircraft>, picks: seq<seq<nat>>,
                        chaos: bool, respectPre: bool, breakTrips: bool, rule: TripRule, k: nat)
    requires UniqueIds(flights)
    requires flights != [] && aircraft != [] ==> EpochPicksFit(picks, flights, aircraft)
    requires RunRl(flights, aircraft, picks, chaos, respectPre, breakTrips, rule).Ok?
    requires k < |RunRl(flights, aircraft, picks, chaos, respectPre, breakTrips, rule).value|
    ensures var m := RunRl(flights, aircraft, picks, chaos, respectPre, breakTrips, rule).value[k].assignments;
      Known(flights, m) && Sound(flights, aircraft, m) && NoOverlap(flights, m)
      && (respectPre ==> PreRespected(flights, aircraft, m))
      && (!breakTrips && rule == BothWays ==> TripsKept(flights, m))
  {
    var empty: Assignments := map[];
    var e := if chaos then ChaosEpoch else LastEpoch;
    EpochInvariants(flights, picks[e], aircraft, empty, respectPre, breakTrips, rule);
    if chaos && k == 1 {
      var first := EpochFrom(0, flights, picks[e], aircraft, empty, respectPre, breakTrips, rule);
      EpochInvariants(flights, picks[LastEpoch], aircraft, first, respectPre, breakTrips, rule);
    }
  }

  /** All the invariants that apply, kept by one epoch of `run_rl` started from `cur`. */
  lemma EpochInvariants(flights: seq<Flight>, picks: seq<nat>, aircraft: seq<Aircraft>, cur: Assignments,
                        respectPre: bool, breakTrips: bool, rule: TripRule)
    requires EpochReady(0, flights, picks, aircraft, cur) && UniqueIds(flights)
    requires Sound(flights, aircraft, cur) && NoOverlap(flights, cur)
    requires respectPre ==> PreRespected(flights, aircraft, cur)
    requires !breakTrips && rule == BothWays ==> TripsKept(flights, cur)
    ensures var m := EpochFrom(0, flights, picks, aircraft, cur, respectPre, breakTrips, rule);
      Known(flights, m) && Sound(flights, aircraft, m) && NoOverlap(flights, m)
      && (respectPre ==> PreRespected(flights, aircraft, m))
      && (!breakTrips && rule == BothWays ==> TripsKept(flights, m))
  {
    EpochKeeps(SoundInv, 0, flights, picks, aircraft, cur, respectPre, breakTrips, rule);
    EpochKeeps(NoOverlapInv, 0, flights, picks, aircraft, cur, respectPre, breakTrips, rule);
    if respectPre {
      EpochKeeps(PreInv, 0, flights, picks, aircraft, cur, respectPre, breakTrips, rule);
    }
    if !breakTrips && rule == BothWays {
      EpochKeeps(TripsInv, 0, flights, picks, aircraft, cur, respectPre, breakTrips, rule);
    }
  }

  /** As written, a normal run can store a broken trip although `break_trips` is off: when
      the recorded epoch picks T1 for the outbound leg and T2 for the return leg, F2 lands on
      T2. */
  lemma RunRlBreaksTrip(picks: seq<seq<nat>>)
    requires EpochPicksFit(picks, [TripOut, TripBack], TwoTails) && picks[LastEpoch] == [0, 1]
    ensures RunRl([TripOut, TripBack], TwoTails, picks, false, false, false, OnwardOnly)
         == Ok([Outcome(Normal, map["F1" := "T1", "F2" := "T2"])])
    ensures !TripsKept([TripOut, TripBack], map["F1" := "T1", "F2" := "T2"])
  {
    OnwardRuleOneWay();
  }

  // ---------------------------------------------------------------------
  // /schedule and /disruptions

  /** A query string as its parameter pairs; `request.args.get` returns the first value. */
  type Query = seq<(string, string)>

  /** `not x` on an optional string argument. */
  predicate Falsy(a: Option<string>) {
    a.None? || a.value == ""
  }

  /** The flight condition of the request filter; timestamps compare as strings and the
      end date is widened to the last minute of that day. */
  predicate KeepFlight(f: Flight, subtype: Option<string>, start: Option<string>, end: Option<string>) {
    (Falsy(subtype) || f.subtype == subtype.value)
    && (Falsy(start) || LexLe(start.value, f.dep.text))
    && (Falsy(end) || LexLe(f.arr.text, end.value + " 23:59"))
  }

  /** The flights the request keeps, in their stored order. */
  function FilterFlights(flights: seq<Flight>, subtype: Option<string>, start: Option<string>, end: Option<string>)
    : (r: seq<Flight>)
    ensures IsSubsequence(r, flights)
    ensures forall f :: multiset(r)[f] == if KeepFlight(f, subtype, start, end) then multiset(flights)[f] else 0
    ensures forall f :: f in r <==> f in flights && KeepFlight(f, subtype, start, end)
  {
    var keep := (f: Flight) => KeepFlight(f, subtype, start, end);
    FilterIsSubsequence(flights, keep);
    forall f
      ensures multiset(Filter(flights, keep))[f] == if keep(f) then multiset(flights)[f] else 0
      ensures f in Filter(flights, keep) <==> f in flights && keep(f)
    {
      FilterCount(flights, keep, f);
      FilterMember(flights, keep, f);
    }
    Filter(flights, keep)
  }

  /** The tail numbers named by `exclude_tails`: the argument split at commas. */
  function ExcludedTails(exclude: Option<string>): seq<string> {
    Split(exclude.GetOr(""), ',')
  }

  /** The aircraft the request keeps: a non-empty tail number that is not excluded. */
  function FilterAircraft(aircraft: seq<Aircraft>, exclude: Option<string>): (r: seq<Aircraft>)
    ensures IsSubsequence(r, aircraft)
    ensures forall a :: multiset(r)[a] == if a.tailNum != "" && a.tailNum !in ExcludedTails(exclude)
                                          then multiset(aircraft)[a] else 0
    ensures forall a :: a in r <==> a in aircraft && a.tailNum != "" && a.tailNum !in ExcludedTails(exclude)
  {
    var excluded := ExcludedTails(exclude);
    var keep := (a: Aircraft) => a.tailNum != "" && a.tailNum !in excluded;
    FilterIsSubsequence(aircraft, keep);
    forall a
      ensures multiset(Filter(aircraft, keep))[a] == if keep(a) then multiset(aircraft)[a] else 0
      ensures a in Filter(aircraft, keep) <==> a in aircraft && keep(a)
    {
      FilterCount(aircraft, keep, a);
      FilterMember(aircraft, keep, a);
    }
    Filter(aircraft, keep)
  }

  /** A day-only start and end date keep every flight that departs and arrives on that day:
      the start compares as a prefix and the end is widened to 23:59. */
  lemma WholeDayKept(f: Flight, day: string, depClock: string, arrClock: string)
    requires f.dep.text == day + " " + depClock
    requires f.arr.text == day + " " + arrClock
    requires LexLe(arrClock, "23:59")
    ensures KeepFlight(f, None, Some(day), Some(day))
  {
    assert day + " " + depClock == day + (" " + depClock);
    LexLePrefix(day, " " + depClock);
    LexLeCommonPrefix(day + " ", arrClock, "23:59");
    assert (day + " ") + "23:59" == day + " 23:59";
  }

  /** Excluding a comma-joined list of non-empty tail numbers drops exactly those tails
      (and any aircraft without a tail number). */
  lemma ExcludeJoined(aircraft: seq<Aircraft>, tails: seq<string>)
    requires |tails| >= 1
    requires forall i :: 0 <= i < |tails| ==> ',' !in tails[i]
    ensures forall a :: a in FilterAircraft(aircraft, Some(Join(tails, ','))) <==>
      a in aircraft && a.tailNum != "" && a.tailNum !in tails
  {
    SplitJoin(tails, ',');
  }

  /** With no `exclude_tails` argument only aircraft without a tail number are dropped. */
  lemma NothingExcluded(aircraft: seq<Aircraft>)
    ensures forall a :: a in FilterAircraft(aircraft, None) <==> a in aircraft && a.tailNum != ""
  {
    assert Split("", ',') == [""];
  }

  /** A boolean argument: `request.args.get(k, default).lower() == 'true'`. */
  function ParseFlag(q: Query, k: string, default: string): (r: bool)
    ensures Api.Lookup(q, k).None? ==> r == (Lower(default) == "true")
  {
    Lower(Api.Lookup(q, k).GetOr(default)) == "true"
  }

  /** The two flags survive the trip through the client's query string: an absent flag
      takes the backend default, a checkbox value is read back as it was. */
  lemma FlagsRoundTrip(fl: Api.Filters)
    ensures "respect_pre" !in fl ==> ParseFlag(Api.QueryParams(fl), "respect_pre", "true")
    ensures "respect_pre" in fl && fl["respect_pre"].FlagValue? ==>
      ParseFlag(Api.QueryParams(fl), "respect_pre", "true") == fl["respect_pre"].flag
    ensures "break_trips" !in fl ==> !ParseFlag(Api.QueryParams(fl), "break_trips", "false")
    ensures "break_trips" in fl && fl["break_trips"].FlagValue? ==>
      ParseFlag(Api.QueryParams(fl), "break_trips", "false") == fl["break_trips"].flag
  {
    var q := Api.QueryParams(fl);
    assert Api.Lookup(q, "respect_pre") == Api.Expected(fl, "respect_pre");
    assert Api.Lookup(q, "break_trips") == Api.Expected(fl, "break_trips");
    assert Lower("true") == "true";
    assert Lower("false") == "false";
  }

  /** A request: filter the flights and aircraft by the query, then run the optimiser on
      what is left (`chaos` for `/disruptions`) under the onward rule of version `v`. */
  function Request(flights: seq<Flight>, aircraft: seq<Aircraft>, q: Query, picks: seq<seq<nat>>, chaos: bool,
                   v: Version)
    : (r: Result<seq<Outcome>, string>)
    requires var kept := FilterFlights(flights, Api.Lookup(q, "subtype"), Api.Lookup(q, "start_date"), Api.Lookup(q, "end_date"));
      var fleet := FilterAircraft(aircraft, Api.Lookup(q, "exclude_tails"));
      kept != [] && fleet != [] ==> EpochPicksFit(picks, kept, fleet)
    ensures var kept := FilterFlights(flights, Api.Lookup(q, "subtype"), Api.Lookup(q, "start_date"), Api.Lookup(q, "end_date"));
      var fleet := FilterAircraft(aircraft, Api.Lookup(q, "exclude_tails"));
      (r.Err? <==> kept == [] || fleet == [])
      && (r.Ok? ==> forall k, id :: 0 <= k < |r.value| && id in r.value[k].assignments ==>
            FindFlight(kept, id).Some? && FindAircraft(fleet, r.value[k].assignments[id]).Some?)
  {
    var kept := FilterFlights(flights, Api.Lookup(q, "subtype"), Api.Lookup(q, "start_date"), Api.Lookup(q, "end_date"));
    var fleet := FilterAircraft(aircraft, Api.Lookup(q, "exclude_tails"));
    RunRl(kept, fleet, picks, chaos, ParseFlag(q, "respect_pre", "true"), ParseFlag(q, "break_trips", "false"), RuleOf(v))
  }

  /** Every flight a request assigns passes the request's filter and is on a tail that is
      neither excluded nor empty. */
  lemma RequestHonoursFilters(flights: seq<Flight>, aircraft: seq<Aircraft>, q: Query, picks: seq<seq<nat>>,
                              chaos: bool, v: Version, k: nat, id: string)
    requires var kept := FilterFlights(flights, Api.Lookup(q, "subtype"), Api.Lookup(q, "start_date"), Api.Lookup(q, "end_date"));
      var fleet := FilterAircraft(aircraft, Api.Lookup(q, "exclude_tails"));
      kept != [] && fleet != [] ==> EpochPicksFit(picks, kept, fleet)
    requires Request(flights, aircraft, q, picks, chaos, v).Ok?
    requires k < |Request(flights, aircraft, q, picks, chaos, v).value|
    requires id in Request(flights, aircraft, q, picks, chaos, v).value[k].assignments
    ensures var f := FindFlight(flights, id);
      var tail := Request(flights, aircraft, q, picks, chaos, v).value[k].assignments[id];
      (exists i :: 0 <= i < |flights| && flights[i].flightId == id
         && KeepFlight(flights[i], Api.Lookup(q, "subtype"), Api.Lookup(q, "start_date"), Api.Lookup(q, "end_date")))
      && tail != "" && tail !in ExcludedTails(Api.Lookup(q, "exclude_tails"))
  {
    var kept := FilterFlights(flights, Api.Lookup(q, "subtype"), Api.Lookup(q, "start_date"), Api.Lookup(q, "end_date"));
    var fleet := FilterAircraft(aircraft, Api.Lookup(q, "exclude_tails"));
    var g := FindFlight(kept, id).value;
    assert g in flights;
    var i :| 0 <= i < |flights| && flights[i] == g;
    var a := FindAircraft(fleet, Request(flights, aircraft, q, picks, chaos, v).value[k].assignments[id]).value;
    assert a in fleet;
  }

  /** The first stored result of a mode (`next(r for r in results_db if ...)`). */
  function FirstOfMode(db: seq<Outcome>, mode: Mode): (r: Option<Outcome>)
    ensures r.None? <==> forall i :: 0 <= i < |db| ==> db[i].mode != mode
    ensures r.Some? ==> r.value.mode == mode && r.value in db
    ensures forall i :: 0 <= i < |db| && db[i].mode == mode && (forall j :: 0 <= j < i ==> db[j].mode != mode) ==>
      r == Some(db[i])
  {
    if db == [] then None
    else if db[0].mode == mode then Some(db[0])
    else
      assert forall i :: 0 < i < |db| ==> db[i] == db[1..][i - 1];
      FirstOfMode(db[1..], mode)
  }

  /** The last stored result of a mode. */
  function LastOfMode(db: seq<Outcome>, mode: Mode): (r: Option<Outcome>)
    ensures r.None? <==> forall i :: 0 <= i < |db| ==> db[i].mode != mode
    ensures r.Some? ==> r.value.mode == mode && r.value in db
    ensures forall i :: 0 <= i < |db| && db[i].mode == mode && (forall j :: i < j < |db| ==> db[j].mode != mode) ==>
      r == Some(db[i])
  {
    if db == [] then None
    else if db[|db| - 1].mode == mode then Some(db[|db| - 1])
    else
      var rest := LastOfMode(db[..|db| - 1], mode);
      LastOfModeStep(db, mode, rest);
      rest
  }

  /** `LastOfMode` past a last result of another mode. */
  lemma LastOfModeStep(db: seq<Outcome>, mode: Mode, rest: Option<Outcome>)
    requires db != [] && db[|db| - 1].mode != mode
    requires var init := db[..|db| - 1];
      && (rest.None? <==> forall i :: 0 <= i < |init| ==> init[i].mode != mode)
      && (rest.Some? ==> rest.value.mode == mode && rest.value in init)
      && (forall i :: 0 <= i < |init| && init[i].mode == mode && (forall j :: i < j < |init| ==> init[j].mode != mode) ==>
            rest == Some(init[i]))
    ensures rest.None? <==> forall i :: 0 <= i < |db| ==> db[i].mode != mode
    ensures rest.Some? ==> rest.value.mode == mode && rest.value in db
    ensures forall i :: 0 <= i < |db| && db[i].mode == mode && (forall j :: i < j < |db| ==> db[j].mode != mode) ==>
      rest == Some(db[i])
  {
    var init := db[..|db| - 1];
    assert forall i :: 0 <= i < |init| ==> db[i] == init[i];
    assert db == init + [db[|db| - 1]];
  }

  /** Appending results never changes which stored result of a mode comes first. */
  lemma {:induction false} FirstOfModeAppend(db: seq<Outcome>, more: seq<Outcome>, mode: Mode)
    ensures FirstOfMode(db, mode).Some? ==> FirstOfMode(db + more, mode) == FirstOfMode(db, mode)
  {
    if db != [] && db[0].mode != mode {
      assert (db + more)[1..] == db[1..] + more;
      FirstOfModeAppend(db[1..], more, mode);
    }
  }

  /** The stored results after a run: everything before, then what the run recorded. */
  function Store(db: seq<Outcome>, run: Result<seq<Outcome>, string>): (r: seq<Outcome>)
    ensures |r| == |db| + (if run.Ok? then |run.value| else 0)
    ensures r[..|db|] == db
    ensures run.Ok? ==> r[|db|..] == run.value
    ensures run.Err? ==> r == db
  {
    db + (if run.Ok? then run.value else [])
  }

  /** The endpoint's answer as written: the first stored result of the mode, which is the
      first result of this run when none was stored before. */
  function RespondAsWritten(db: seq<Outcome>, run: Result<seq<Outcome>, string>, mode: Mode): (r: Option<Outcome>)
    ensures FirstOfMode(db, mode).Some? ==> r == FirstOfMode(db, mode)
    ensures FirstOfMode(db, mode).None? && run.Ok? && run.value != [] && run.value[0].mode == mode ==>
      r == Some(run.value[0])
  {
    var more := if run.Ok? then run.value else [];
    FirstOfModeAppend(db, more, mode);
    if FirstOfMode(db, mode).None? && more != [] then
      assert (db + more)[|db|] == more[0];
      assert forall j :: 0 <= j < |db| ==> (db + more)[j] == db[j];
      FirstOfMode(Store(db, run), mode)
    else
      FirstOfMode(Store(db, run), mode)
  }

  /** As written, once a normal result is stored, `/schedule` keeps answering with it: a
      second request whose run assigns F1 to T2 is answered with the first run's F1 on T1. */
  lemma StaleSchedule()
    ensures var stale := Outcome(Normal, map["F1" := "T1"]);
      var newer := Outcome(Normal, map["F1" := "T2"]);
      RespondAsWritten([stale], Ok([newer]), Normal) == Some(stale) && stale != newer
  {
    var stale := Outcome(Normal, map["F1" := "T1"]);
    var newer := Outcome(Normal, map["F1" := "T2"]);
    assert stale.assignments["F1"] != newer.assignments["F1"];
  }

  /** The evidently intended answer: the result the request has just stored. */
  function Respond(db: seq<Outcome>, run: Result<seq<Outcome>, string>, mode: Mode): (r: Option<Outcome>)
    requires run.Ok? ==> forall k :: 0 <= k < |run.value| ==> run.value[k].mode == mode
    ensures run.Ok? && run.value != [] ==> r == Some(run.value[|run.value| - 1])
    ensures run.Err? ==> r == LastOfMode(db, mode)
  {
    LastOfMode(Store(db, run), mode)
  }

  /** The reply of version `v`. */
  function Answer(v: Version, db: seq<Outcome>, run: Result<seq<Outcome>, string>, mode: Mode): Option<Outcome>
    requires run.Ok? ==> forall k :: 0 <= k < |run.value| ==> run.value[k].mode == mode
  {
    if v == AsWritten then RespondAsWritten(db, run, mode) else Respond(db, run, mode)
  }

  /** `GET /schedule`: filter, run in normal mode, store and answer. As written the answer is
      the first normal result ever stored; corrected, it is the one just stored. */
  function GetSchedule(v: Version, db: seq<Outcome>, flights: seq<Flight>, aircraft: seq<Aircraft>, q: Query,
                       picks: seq<seq<nat>>)
    : (r: (seq<Outcome>, Option<Outcome>))
    requires var kept := FilterFlights(flights, Api.Lookup(q, "subtype"), Api.Lookup(q, "start_date"), Api.Lookup(q, "end_date"));
      var fleet := FilterAircraft(aircraft, Api.Lookup(q, "exclude_tails"));
      kept != [] && fleet != [] ==> EpochPicksFit(picks, kept, fleet)
    ensures var run := Request(flights, aircraft, q, picks, false, v);
      && |r.0| == |db| + (if run.Ok? then 1 else 0)
      && (run.Ok? ==> r.0[|db|..] == run.value && r.0[|db|].mode == Normal)
      && (v == Corrected && run.Ok? ==> r.1 == Some(r.0[|r.0| - 1]))
      && (v == AsWritten && FirstOfMode(db, Normal).Some? ==> r.1 == FirstOfMode(db, Normal))
      && (v == AsWritten && FirstOfMode(db, Normal).None? && run.Ok? ==> r.1 == Some(r.0[|db|]))
  {
    var run := Request(flights, aircraft, q, picks, false, v);
    (Store(db, run), Answer(v, db, run, Normal))
  }

  /** `GET /disruptions`: filter, run in chaos mode (two stored results), store and answer. As
      written the answer is the first chaos result ever stored, which on the first request is
      the epoch-11 result; corrected, it is the epoch-19 result just stored. */
  function GetDisruptions(v: Version, db: seq<Outcome>, flights: seq<Flight>, aircraft: seq<Aircraft>, q: Query,
                          picks: seq<seq<nat>>)
    : (r: (seq<Outcome>, Option<Outcome>))
    requires var kept := FilterFlights(flights, Api.Lookup(q, "subtype"), Api.Lookup(q, "start_date"), Api.Lookup(q, "end_date"));
      var fleet := FilterAircraft(aircraft, Api.Lookup(q, "exclude_tails"));
      kept != [] && fleet != [] ==> EpochPicksFit(picks, kept, fleet)
    ensures var run := Request(flights, aircraft, q, picks, true, v);
      && |r.0| == |db| + (if run.Ok? then 2 else 0)
      && (run.Ok? ==> r.0[|db|..] == run.value && r.0[|db|].mode == Chaos)
      && (v == Corrected && run.Ok? ==> r.1 == Some(r.0[|r.0| - 1]))
      && (v == AsWritten && FirstOfMode(db, Chaos).Some? ==> r.1 == FirstOfMode(db, Chaos))
      && (v == AsWritten && FirstOfMode(db, Chaos).None? && run.Ok? ==> r.1 == Some(r.0[|db|]))
  {
    var run := Request(flights, aircraft, q, picks, true, v);
    (Store(db, run), Answer(v, db, run, Chaos))
  }

  // ---------------------------------------------------------------------
  // POST /flights and POST /aircraft

  /** A JSON value as the request body carries it. */
  datatype Json =
    | JNull
    | JBool(b: bool)
    | JNumber(n: real)
    | JString(s: string)
    | JList(items: seq<Json>)
    | JObject(fields: map<string, Json>)

  type Record = map<string, Json>

  datatype Reply = Reply(status: int, message: string)

  const FlightFields: seq<string> := ["flight_id", "dep_time", "arr_time", "origin", "dest", "subtype",
                                      "min_seating_capacity", "ground_time", "passengers", "distance"]
  const AircraftFields: seq<string> := ["tail_num", "subtype", "capacity", "base_fuel", "efficiency"]

  predicate HasAll(data: Record, required: seq<string>) {
    forall i :: 0 <= i < |required| ==> required[i] in data
  }

  /** The shared shape of both handlers: reject a body missing a required key, otherwise
      default one optional key when it is absent and append the record. */
  function AddRecord(list: seq<Record>, data: Record, required: seq<string>, key: string, default: Json, done: string)
    : (r: (seq<Record>, Reply))
    ensures r.1.status == 400 <==> !HasAll(data, required)
    ensures r.1.status == 400 ==> r.0 == list && r.1.message == "Missing required fields"
    ensures r.1.status != 400 ==> r.1 == Reply(201, done) && |r.0| == |list| + 1 && r.0[..|list|] == list
    ensures r.1.status != 400 ==>
      var added := r.0[|list|];
      added.Keys == data.Keys + {key}
      && (forall k :: k in data && k != key ==> added[k] == data[k])
      && added[key] == (if key in data then data[key] else default)
  {
    if !HasAll(data, required) then (list, Reply(400, "Missing required fields"))
    else
      var added := data[key := if key in data then data[key] else default];
      (list + [added], Reply(201, done))
  }

  /** `add_flight`. */
  function AddFlight(flights: seq<Record>, data: Record): (r: (seq<Record>, Reply))
    ensures r.1.status == 400 <==> exists i :: 0 <= i < |FlightFields| && FlightFields[i] !in data
    ensures r.1.status == 400 ==> r.0 == flights
    ensures r.1.status != 400 ==>
      r.1 == Reply(201, "Flight added successfully") && |r.0| == |flights| + 1 && r.0[..|flights|] == flights
      && "onward_flight" in r.0[|flights|]
      && r.0[|flights|]["onward_flight"] == (if "onward_flight" in data then data["onward_flight"] else JNull)
  {
    AddRecord(flights, data, FlightFields, "onward_flight", JNull, "Flight added successfully")
  }

  /** `add_aircraft`. */
  function AddAircraft(aircraft: seq<Record>, data: Record): (r: (seq<Record>, Reply))
    ensures r.1.status == 400 <==> exists i :: 0 <= i < |AircraftFields| && AircraftFields[i] !in data
    ensures r.1.status == 400 ==> r.0 == aircraft
    ensures r.1.status != 400 ==>
      r.1 == Reply(201, "Aircraft added successfully") && |r.0| == |aircraft| + 1 && r.0[..|aircraft|] == aircraft
      && "pre_assignments" in r.0[|aircraft|]
      && r.0[|aircraft|]["pre_assignments"] == (if "pre_assignments" in data then data["pre_assignments"] else JList([]))
  {
    AddRecord(aircraft, data, AircraftFields, "pre_assignments", JList([]), "Aircraft added successfully")
  }

  /** Posting a stored record again is accepted and appends it unchanged: the defaulting
      only fills in what is missing. */
  lemma AddRecordAgain(list: seq<Record>, data: Record, required: seq<string>, key: string, default: Json, done: string)
    requires HasAll(data, required)
    ensures var once := AddRecord(list, data, required, key, default, done).0;
      var added := once[|list|];
      AddRecord(once, added, required, key, default, done).0 == once + [added]
  {
    var once := AddRecord(list, data, required, key, default, done).0;
    var added := once[|list|];
    assert added[key := added[key]] == added;
  }

  // ---------------------------------------------------------------------
  // GET /statistics

  /** One event of a stored result, as far as the statistics read it. */
  datatype Event = Event(passengers: int, carbon: real)

  /** A stored result as the statistics read it. */
  datatype Stored = Stored(events: seq<Event>, chaosRecovered: int)

  datatype Stats = Stats(totalFlights: nat, avgPassengers: real, totalCo2: real, chaosRecovered: int)

  function SumPassengers(events: seq<Event>): int {
    if events == [] then 0 else events[0].passengers + SumPassengers(events[1..])
  }

  function SumCarbon(events: seq<Event>): real {
    if events == [] then 0.0 else events[0].carbon + SumCarbon(events[1..])
  }

  /** `get_statistics`: 404 with no stored result; the average divides by the number of
      events, so a latest result without events fails with a division by zero (500);
      otherwise totals over the latest result only. */
  function GetStatistics(db: seq<Stored>): (r: Result<Stats, Reply>)
    ensures r.Err? <==> db == [] || db[|db| - 1].events == []
    ensures db == [] ==> r == Err(Reply(404, "No results available yet"))
    ensures db != [] && db[|db| - 1].events == [] ==> r.Err? && r.error.status == 500
    ensures r.Ok? ==>
      var events := db[|db| - 1].events;
      r.value.totalFlights == |events|
      && r.value.avgPassengers * |events| as real == SumPassengers(events) as real
      && r.value.totalCo2 == SumCarbon(events)
      && r.value.chaosRecovered == db[|db| - 1].chaosRecovered
  {
    if db == [] then Err(Reply(404, "No results available yet"))
    else
      var latest := db[|db| - 1];
      if latest.events == [] then Err(Reply(500, "division by zero"))
      else
        Ok(Stats(|latest.events|, SumPassengers(latest.events) as real / |latest.events| as real,
                 SumCarbon(latest.events), latest.chaosRecovered))
  }

  /** Passenger totals stay within the per-event bounds. */
  lemma {:induction false} SumPassengersBounded(events: seq<Event>, lo: int, hi: int)
    requires forall i :: 0 <= i < |events| ==> lo <= events[i].passengers <= hi
    ensures lo * |events| <= SumPassengers(events) <= hi * |events|
  {
    if events != [] {
      SumPassengersBounded(events[1..], lo, hi);
    }
  }

  /** The average lies between the smallest and largest passenger count allowed. */
  lemma AverageBounded(db: seq<Stored>, lo: int, hi: int)
    requires GetStatistics(db).Ok?
    requires var events := db[|db| - 1].events; forall i :: 0 <= i < |events| ==> lo <= events[i].passengers <= hi
    ensures lo as real <= GetStatistics(db).value.avgPassengers <= hi as real
  {
    var events := db[|db| - 1].events;
    SumPassengersBounded(events, lo, hi);
    MeanBetween(SumPassengers(events), |events|, GetStatistics(db).value.avgPassengers, lo, hi);
  }

  /** A mean of values within bounds lies within the same bounds. */
  lemma MeanBetween(sum: int, count: int, avg: real, lo: int, hi: int)
    requires count > 0 && avg * count as real == sum as real
    requires lo * count <= sum <= hi * count
    ensures lo as real <= avg <= hi as real
  {
    var n := count as real;
    assert (lo * count) as real == lo as real * n;
    assert (hi * count) as real == hi as real * n;
    assert lo as real * n <= avg * n <= hi as real * n;
  }

  /** Only the latest stored result counts. */
  lemma LatestDecides(db: seq<Stored>, latest: Stored)
    ensures GetStatistics(db + [latest]) == GetStatistics([latest])
  {
  }
}
