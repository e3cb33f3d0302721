/**
 * The disruptions dashboard (frontend/components/disruptions-page.jsx):
 * the mock flight generator, the chaos-mode status mapping by list index,
 * and the row class. The table's sort toggle is module `SortToggle`.
 *
 * `Math.random()` is not modelled as a value: every draw the generator
 * makes is an input, already scaled and floored the way the page scales and
 * floors it, and the properties hold for every draw in range. Times are
 * minutes after midnight of the generated day; the ISO text the page
 * renders from them is not modelled.
 */
module Disruptions {
  import opened Wrappers
  import opened Text

  const Airports: seq<string> := ["LAX", "JFK", "ORD", "DFW", "ATL", "SFO", "SEA", "MIA", "DEN", "LAS"]
  const TailNumbers: seq<string> := ["N101GT", "N102GT", "N103GT", "N104GT", "N105GT"]
  const DisruptionTypes: seq<string> := ["Weather", "Mechanical", "Crew", "Air Traffic Control"]

  const FlightCount := 30
  /** 06:00, the departure of the first slot. */
  const BaseMinutes := 360

  datatype MockFlight = MockFlight(
    flightId: string, tailNum: string, origin: string, dest: string, dep: int, arr: int,
    passengers: int, carbon: real, groundTime: int, status: string, disruptionType: Option<string>)

  /** The draws for one generated flight: indices into the airport list (the origin, then
      the destinations drawn until one differs), the floored minute offset within the slot,
      the floored extra flight time, extra passengers, the carbon fraction, the tail index
      and the floored extra ground time. */
  datatype Draw = Draw(origin: nat, dests: seq<nat>, jitter: nat, extraTime: nat, extraPassengers: nat,
                       carbonFraction: real, tail: nat, extraGround: nat)

  /** Every draw in the range `Math.floor(Math.random() * n)` gives, and a destination
      draw that differs from the origin eventually (otherwise the page loops forever). */
  predicate DrawOk(d: Draw) {
    d.origin < |Airports|
    && (forall k :: 0 <= k < |d.dests| ==> d.dests[k] < |Airports|)
    && !(forall k :: 0 <= k < |d.dests| ==> d.dests[k] == d.origin)
    && d.jitter < 30 && d.extraTime < 180 && d.extraPassengers < 100
    && 0.0 <= d.carbonFraction < 1.0 && d.tail < |TailNumbers| && d.extraGround < 90
  }

  /** The `while (dest === origin)` loop: the first destination draw that differs. */
  function FirstOther(dests: seq<nat>, origin: nat): (r: nat)
    requires !(forall k :: 0 <= k < |dests| ==> dests[k] == origin)
    ensures r != origin && r in dests
  {
    if dests[0] != origin then dests[0]
    else
      assert !(forall k :: 0 <= k < |dests[1..]| ==> dests[1..][k] == origin) by {
        var k :| 0 <= k < |dests| && dests[k] != origin;
        assert dests[1..][k - 1] == dests[k];
      }
      FirstOther(dests[1..], origin)
  }

  /** What every generated flight at position `i` satisfies. */
  predicate Generated(f: MockFlight, i: nat) {
    f.flightId == "GT" + NatToString(1000 + i)
    && f.origin in Airports && f.dest in Airports && f.origin != f.dest
    && BaseMinutes + 30 * i <= f.dep < BaseMinutes + 30 * i + 30
    && f.dep + 60 <= f.arr < f.dep + 240
    && 120 <= f.passengers <= 219
    && 400.0 <= f.carbon < 1000.0
    && 30 <= f.groundTime <= 119
    && f.tailNum in TailNumbers
    && f.status == "On Schedule" && f.disruptionType.None?
  }

  /** The airport names are pairwise different. */
  lemma AirportsDistinct(a: nat, b: nat)
    requires a < |Airports| && b < |Airports| && a != b
    ensures Airports[a] != Airports[b]
  {
  }

  /** One iteration of the generator loop. */
  function MakeFlight(i: nat, d: Draw): (r: MockFlight)
    requires DrawOk(d)
    ensures Generated(r, i)
  {
    var dest := FirstOther(d.dests, d.origin);
    AirportsDistinct(d.origin, dest);
    var dep := BaseMinutes + i * 30 + d.jitter;
    MockFlight("GT" + NatToString(1000 + i), TailNumbers[d.tail], Airports[d.origin], Airports[dest],
               dep, dep + 60 + d.extraTime, 120 + d.extraPassengers, 400.0 + d.carbonFraction * 600.0,
               30 + d.extraGround, "On Schedule", None)
  }

  /** Flights from different positions have different ids. */
  lemma GeneratedIdsDistinct(f: MockFlight, i: nat, g: MockFlight, j: nat)
    requires Generated(f, i) && Generated(g, j) && i != j
    ensures f.flightId != g.flightId
  {
    IdsDistinct(i, j);
  }

  lemma IdsDistinct(i: nat, j: nat)
    requires i != j
    ensures "GT" + NatToString(1000 + i) != "GT" + NatToString(1000 + j)
  {
    var a := "GT" + NatToString(1000 + i);
    var b := "GT" + NatToString(1000 + j);
    if a == b {
      assert a[2..] == NatToString(1000 + i);
      assert b[2..] == NatToString(1000 + j);
      NatToStringInjective(1000 + i, 1000 + j);
    }
  }

  /** `generateNormalFlights`: thirty flights with ids GT1000..GT1029, in strictly increasing
      departure order, every one satisfying `Generated`. */
  method GenerateNormalFlights(draws: seq<Draw>) returns (flights: seq<MockFlight>)
    requires |draws| == FlightCount
    requires forall i :: 0 <= i < |draws| ==> DrawOk(draws[i])
    ensures |flights| == FlightCount
    ensures forall i :: 0 <= i < |flights| ==> Generated(flights[i], i) && flights[i] == MakeFlight(i, draws[i])
    ensures forall i, j :: 0 <= i < j < |flights| ==>
      flights[i].flightId != flights[j].flightId && flights[i].dep < flights[j].dep
  {
    flights := [];
    var i := 0;
    while i < FlightCount
      invariant 0 <= i <= FlightCount && |flights| == i
      invariant forall j :: 0 <= j < i ==> Generated(flights[j], j)
      invariant forall j :: 0 <= j < i ==> DrawOk(draws[j]) && flights[j] == MakeFlight(j, draws[j])
      invariant forall j, k :: 0 <= j < k < i ==> flights[j].flightId != flights[k].flightId && flights[j].dep < flights[k].dep
    {
      var f := MakeFlight(i, draws[i]);
      AppendGenerated(flights, f);
      AppendMade(flights, draws);
      flights := flights + [f];
      i := i + 1;
    }
  }

  /** The next generated flight extends a generated list. */
  lemma AppendGenerated(flights: seq<MockFlight>, f: MockFlight)
    requires forall j :: 0 <= j < |flights| ==> Generated(flights[j], j)
    requires forall j, k :: 0 <= j < k < |flights| ==>
      flights[j].flightId != flights[k].flightId && flights[j].dep < flights[k].dep
    requires Generated(f, |flights|)
    ensures var r := flights + [f];
      (forall j :: 0 <= j < |r| ==> Generated(r[j], j))
      && forall j, k :: 0 <= j < k < |r| ==> r[j].flightId != r[k].flightId && r[j].dep < r[k].dep
  {
    var r := flights + [f];
    forall j | 0 <= j < |flights| ensures flights[j].flightId != f.flightId && flights[j].dep < f.dep {
      GeneratedIdsDistinct(flights[j], j, f, |flights|);
    }
    assert forall j :: 0 <= j < |flights| ==> r[j] == flights[j];
  }

  /** Appending the flight made from the next draw keeps each flight the one made from its draw. */
  lemma AppendMade(flights: seq<MockFlight>, draws: seq<Draw>)
    requires |flights| < |draws| && DrawOk(draws[|flights|])
    requires forall j :: 0 <= j < |flights| ==> DrawOk(draws[j]) && flights[j] == MakeFlight(j, draws[j])
    ensures var r := flights + [MakeFlight(|flights|, draws[|flights|])];
      forall j :: 0 <= j < |r| ==> DrawOk(draws[j]) && r[j] == MakeFlight(j, draws[j])
  {
    var r := flights + [MakeFlight(|flights|, draws[|flights|])];
    forall j | 0 <= j < |r| ensures DrawOk(draws[j]) && r[j] == MakeFlight(j, draws[j]) {
      if j < |flights| {
        assert r[j] == flights[j];
      }
    }
  }

  /** The first and last generated ids. */
  lemma IdRange()
    ensures "GT" + NatToString(1000) == "GT1000"
    ensures "GT" + NatToString(1000 + FlightCount - 1) == "GT1029"
  {
    assert NatToString(1) == "1";
    assert NatToString(10) == NatToString(1) + "0";
    assert NatToString(100) == NatToString(10) + "0";
    assert NatToString(1000) == NatToString(100) + "0";
    assert NatToString(102) == NatToString(10) + "2";
    assert NatToString(1029) == NatToString(102) + "9";
  }

  // ---------------------------------------------------------------------
  // Chaos mode

  /** `generateChaosFlights` on one flight at list position `index`; `typeDraw` picks the
      disruption type. */
  function ChaosAt(f: MockFlight, index: nat, typeDraw: nat): (r: MockFlight)
    requires typeDraw < |DisruptionTypes|
    ensures index % 3 == 0 ==>
      r.status == "Disrupted" && r.carbon == f.carbon * 1.2 && r.disruptionType == Some(DisruptionTypes[typeDraw])
    ensures index % 3 != 0 && index % 5 == 0 ==>
      r.status == "Recovering" && r.carbon == f.carbon * 0.9 && r.disruptionType == Some(DisruptionTypes[typeDraw])
    ensures index % 3 != 0 && index % 5 != 0 ==> r == f
    ensures r.(carbon := f.carbon, status := f.status, disruptionType := f.disruptionType) == f
  {
    if index % 3 == 0 then
      f.(carbon := f.carbon * 1.2, status := "Disrupted", disruptionType := Some(DisruptionTypes[typeDraw]))
    else if index % 5 == 0 then
      f.(carbon := f.carbon * 0.9, status := "Recovering", disruptionType := Some(DisruptionTypes[typeDraw]))
    else f
  }

  /** The chaos mapping over a whole list; `types` holds one disruption-type draw per flight. */
  function ChaosOf(flights: seq<MockFlight>, types: seq<nat>): (r: seq<MockFlight>)
    requires |types| == |flights| && forall i :: 0 <= i < |types| ==> types[i] < |DisruptionTypes|
    ensures |r| == |flights|
    ensures forall i :: 0 <= i < |r| ==> r[i] == ChaosAt(flights[i], i, types[i])
  {
    seq(|flights|, i requires 0 <= i < |flights| => ChaosAt(flights[i], i, types[i]))
  }

  /** `generateChaosFlights`: the normal flights from the same draws, then the mapping by
      position, which raises carbon by a fifth on a disrupted flight, lowers it by a tenth on
      a recovering one and changes nothing else but status and disruption type. */
  method GenerateChaosFlights(draws: seq<Draw>, types: seq<nat>) returns (flights: seq<MockFlight>)
    requires |draws| == FlightCount && forall i :: 0 <= i < |draws| ==> DrawOk(draws[i])
    requires |types| == FlightCount && forall i :: 0 <= i < |types| ==> types[i] < |DisruptionTypes|
    ensures |flights| == FlightCount
    ensures forall i :: 0 <= i < |flights| ==> flights[i].flightId == "GT" + NatToString(1000 + i)
    ensures forall i :: 0 <= i < |flights| ==>
      flights[i].status == (if i % 3 == 0 then "Disrupted" else if i % 5 == 0 then "Recovering" else "On Schedule")
    ensures forall i :: 0 <= i < |flights| ==>
      (flights[i].status == "On Schedule" <==> flights[i].disruptionType.None?)
    ensures exists normal: seq<MockFlight> ::
              && |normal| == FlightCount
              && (forall i :: 0 <= i < FlightCount ==> Generated(normal[i], i) && normal[i] == MakeFlight(i, draws[i]))
              && flights == ChaosOf(normal, types)
  {
    var normal := GenerateNormalFlights(draws);
    flights := ChaosOf(normal, types);
  }

  /** Position 15 is a multiple of both 3 and 5; the multiple-of-3 rule wins. */
  lemma FifteenIsDisrupted(f: MockFlight, typeDraw: nat)
    requires typeDraw < |DisruptionTypes|
    ensures ChaosAt(f, 15, typeDraw).status == "Disrupted"
  {
  }

  /** The chaos mapping keeps ids and order: applied to any list it changes only carbon,
      status and disruption type at each position. */
  lemma ChaosKeepsOrder(flights: seq<MockFlight>, types: seq<nat>)
    requires |types| == |flights| && forall i :: 0 <= i < |types| ==> types[i] < |DisruptionTypes|
    ensures forall i :: 0 <= i < |flights| ==>
      ChaosOf(flights, types)[i].flightId == flights[i].flightId
      && ChaosOf(flights, types)[i].dep == flights[i].dep
      && ChaosOf(flights, types)[i].tailNum == flights[i].tailNum
  {
  }

  // ---------------------------------------------------------------------
  // Table

  /** `getRowClass`. */
  function RowClass(status: string): (r: string)
    ensures r == "bg-destructive/10" <==> status == "Disrupted"
    ensures r == "efficient-flight" <==> status == "Recovering"
    ensures r == "" <==> status != "Disrupted" && status != "Recovering"
  {
    if status == "Disrupted" then "bg-destructive/10"
    else if status == "Recovering" then "efficient-flight"
    else ""
  }

  /** In chaos mode the row class follows the list position alone. */
  lemma RowClassByPosition(f: MockFlight, i: nat, typeDraw: nat)
    requires Generated(f, i) && typeDraw < |DisruptionTypes|
    ensures RowClass(ChaosAt(f, i, typeDraw).status)
      == if i % 3 == 0 then "bg-destructive/10" else if i % 5 == 0 then "efficient-flight" else ""
  {
  }
}
