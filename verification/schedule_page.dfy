/**
 * The schedule page of the crew dashboard (project_1/components/schedule-page.jsx):
 * the per-aircraft chains built from the fetched flight events, with a
 * maintenance block wherever the ground gap between consecutive flights
 * exceeds an hour; the filter record and its change and reset handlers;
 * and the tooltip and row-highlight classification of a flight.
 * Times are whole minutes on one clock.
 */
module SchedulePage {
  import opened Wrappers
  import opened Text
  import opened Seqs
  import opened Api

  /** A flight event as the backend returns it, with times in minutes. */
  datatype Flight = Flight(
    flightId: string, tailNum: string, origin: string, dest: string,
    dep: int, arr: int, minSeatingCapacity: int, groundTime: int,
    onwardFlight: Option<string>, passengers: int, carbon: real)

  /** An element of an aircraft's chain: a flight, or a maintenance block of the
      given length in minutes. */
  datatype ChainItem = FlightItem(flight: Flight) | Maintenance(duration: int)

  /** Gaps longer than this many minutes get a maintenance block. */
  const GapThreshold := 60

  /** Minutes from the arrival of `a` to the departure of `b`; negative when they overlap. */
  function Gap(a: Flight, b: Flight): int { b.dep - a.arr }

  // ---------------------------------------------------------------------
  // Grouping and ordering

  function OnTail(tail: string): Flight -> bool { (f: Flight) => f.tailNum == tail }

  /** The flights of one aircraft, in fetch order. */
  function GroupOf(flights: seq<Flight>, tail: string): seq<Flight> {
    Filter(flights, OnTail(tail))
  }

  /** Every aircraft that has at least one flight. */
  function Tails(flights: seq<Flight>): set<string> {
    set f | f in flights :: f.tailNum
  }

  ghost predicate SortedByDep(s: seq<Flight>) {
    forall i, j :: 0 <= i < j < |s| ==> s[i].dep <= s[j].dep
  }

  /** Put `x` before the first flight that departs no earlier than it. */
  function Insert(x: Flight, s: seq<Flight>): (r: seq<Flight>)
    requires SortedByDep(s)
    ensures SortedByDep(r)
    ensures multiset(r) == multiset(s) + multiset{x}
    ensures |r| == |s| + 1
    ensures r[0] == x || (s != [] && r[0] == s[0])
  {
    if s == [] || x.dep <= s[0].dep then
      ConsSorted(x, s);
      [x] + s
    else
      assert s == [s[0]] + s[1..];
      var rest := Insert(x, s[1..]);
      ConsSorted(s[0], rest);
      [s[0]] + rest
  }

  /** A flight departing no later than the head of a sorted list can go in front. */
  lemma ConsSorted(y: Flight, rest: seq<Flight>)
    requires SortedByDep(rest)
    requires rest != [] ==> y.dep <= rest[0].dep
    ensures SortedByDep([y] + rest)
  {
    var c := [y] + rest;
    forall i, j | 0 <= i < j < |c| ensures c[i].dep <= c[j].dep {
      if i == 0 {
        assert c[j] == rest[j - 1];
        assert rest[0].dep <= rest[j - 1].dep || j == 1;
      } else {
        assert c[i] == rest[i - 1] && c[j] == rest[j - 1];
      }
    }
  }

  /** The stable ascending sort by departure that `Array.prototype.sort` performs
      with the comparator `dep(a) - dep(b)`. */
  function SortByDep(s: seq<Flight>): (r: seq<Flight>)
    ensures SortedByDep(r)
    ensures multiset(r) == multiset(s)
    ensures |r| == |s|
  {
    if s == [] then []
    else
      assert s == [s[0]] + s[1..];
      Insert(s[0], SortByDep(s[1..]))
  }

  function DepartsAt(d: int): Flight -> bool { (f: Flight) => f.dep == d }

  /** Insertion puts `x` ahead of every flight that departs at the same minute. */
  lemma {:induction false} InsertStable(x: Flight, s: seq<Flight>, d: int)
    requires SortedByDep(s)
    ensures Filter(Insert(x, s), DepartsAt(d)) == (if x.dep == d then [x] else []) + Filter(s, DepartsAt(d))
  {
    var p := DepartsAt(d);
    if s == [] || x.dep <= s[0].dep {
      FilterCons(x, s, p);
    } else {
      var rest := Insert(x, s[1..]);
      InsertStable(x, s[1..], d);
      FilterCons(s[0], rest, p);
      assert s == [s[0]] + s[1..];
      FilterCons(s[0], s[1..], p);
      if x.dep == d {
        assert !p(s[0]);
      } else {
        assert Filter(rest, p) == Filter(s[1..], p);
      }
    }
  }

  /** Flights that depart at the same minute keep their fetch order. */
  lemma {:induction false} SortByDepStable(s: seq<Flight>, d: int)
    ensures Filter(SortByDep(s), DepartsAt(d)) == Filter(s, DepartsAt(d))
  {
    if s != [] {
      SortByDepStable(s[1..], d);
      InsertStable(s[0], SortByDep(s[1..]), d);
    }
  }

  // ---------------------------------------------------------------------
  // Maintenance-gap insertion

  /** The flights of a chain, maintenance blocks removed. */
  function FlightsOf(chain: seq<ChainItem>): (r: seq<Flight>)
    ensures |r| <= |chain|
  {
    if chain == [] then []
    else (if chain[0].FlightItem? then [chain[0].flight] else []) + FlightsOf(chain[1..])
  }

  /** What item `k` of a chain must satisfy: a flight directly followed by a flight is
      at most an hour before it; a maintenance block sits strictly inside the chain,
      between two flights, and records the gap between them, which exceeds an hour. */
  ghost predicate ItemOk(chain: seq<ChainItem>, k: int)
    requires 0 <= k < |chain|
  {
    match chain[k]
    case FlightItem(f) =>
      k + 1 < |chain| && chain[k + 1].FlightItem? ==> Gap(f, chain[k + 1].flight) <= GapThreshold
    case Maintenance(d) =>
      && 0 < k < |chain| - 1
      && chain[k - 1].FlightItem? && chain[k + 1].FlightItem?
      && d == Gap(chain[k - 1].flight, chain[k + 1].flight)
      && d > GapThreshold
  }

  /** Every item of the chain is in place; in particular a chain starts and ends with a
      flight and never holds two adjacent blocks. */
  ghost predicate WellGapped(chain: seq<ChainItem>) {
    forall k :: 0 <= k < |chain| ==> ItemOk(chain, k)
  }

  /** The loop of the fetch callback over one aircraft's sorted flights: emit each
      flight and, before the next one, a maintenance block when the gap exceeds an hour. */
  function WithGaps(s: seq<Flight>): (chain: seq<ChainItem>)
    ensures FlightsOf(chain) == s
    ensures WellGapped(chain)
    ensures s == [] <==> chain == []
    ensures s != [] ==> chain[0] == FlightItem(s[0])
  {
    if |s| <= 1 then (if s == [] then [] else [FlightItem(s[0])])
    else
      var rest := WithGaps(s[1..]);
      WithGapsStep(s, rest);
      [FlightItem(s[0])] + Block(s[0], s[1]) + rest
  }

  /** One step of the loop: the first flight, its block if any, then the rest's chain. */
  lemma WithGapsStep(s: seq<Flight>, rest: seq<ChainItem>)
    requires |s| >= 2 && FlightsOf(rest) == s[1..] && WellGapped(rest) && rest != [] && rest[0] == FlightItem(s[1])
    ensures var chain := [FlightItem(s[0])] + Block(s[0], s[1]) + rest;
      FlightsOf(chain) == s && WellGapped(chain) && chain[0] == FlightItem(s[0])
  {
    var head := [FlightItem(s[0])] + Block(s[0], s[1]);
    FlightsOfAppend(head, rest);
    assert FlightsOf(head) == [s[0]];
    assert s == [s[0]] + s[1..];
    WellGappedCons(s[0], s[1], rest);
  }

  /** The maintenance block between two consecutive flights, if any. */
  function Block(a: Flight, b: Flight): seq<ChainItem> {
    if Gap(a, b) > GapThreshold then [Maintenance(Gap(a, b))] else []
  }

  lemma WellGappedCons(x: Flight, y: Flight, rest: seq<ChainItem>)
    requires WellGapped(rest) && |rest| > 0 && rest[0] == FlightItem(y)
    ensures WellGapped([FlightItem(x)] + Block(x, y) + rest)
  {
    var c := [FlightItem(x)] + Block(x, y) + rest;
    var m := |Block(x, y)| + 1;
    forall k | 0 <= k < |c| ensures ItemOk(c, k) {
      if k >= m {
        assert c[k] == rest[k - m];
        assert k + 1 < |c| ==> c[k + 1] == rest[k - m + 1];
        assert k > m ==> c[k - 1] == rest[k - m - 1];
        assert ItemOk(rest, k - m);
      }
    }
  }

  lemma {:induction false} FlightsOfAppend(a: seq<ChainItem>, b: seq<ChainItem>)
    ensures FlightsOf(a + b) == FlightsOf(a) + FlightsOf(b)
  {
    if a != [] {
      FlightsOfAppend(a[1..], b);
      assert (a + b)[1..] == a[1..] + b;
    } else {
      assert a + b == b;
    }
  }

  lemma WellGappedSuffix(chain: seq<ChainItem>, n: nat)
    requires WellGapped(chain) && n < |chain| && chain[n].FlightItem?
    ensures WellGapped(chain[n..])
  {
    var c := chain[n..];
    forall k | 0 <= k < |c| ensures ItemOk(c, k) {
      assert c[k] == chain[n + k];
      assert k + 1 < |c| ==> c[k + 1] == chain[n + k + 1];
      assert k > 0 ==> c[k - 1] == chain[n + k - 1];
      assert ItemOk(chain, n + k);
    }
  }

  /** `WellGapped` pins the chain down: the chain of every sorted flight list is the
      only well-gapped chain with those flights. So a block appears between two
      consecutive flights exactly when their gap exceeds an hour, and it records
      that gap. */
  lemma {:induction false} WellGappedUnique(chain: seq<ChainItem>, s: seq<Flight>)
    requires WellGapped(chain) && FlightsOf(chain) == s
    ensures chain == WithGaps(s)
    decreases |chain|, 1
  {
    if chain != [] {
      assert ItemOk(chain, 0);
      if |chain| == 1 {
        assert FlightsOf(chain) == [chain[0].flight] + FlightsOf(chain[1..]);
        assert s == [chain[0].flight];
      } else if chain[1].FlightItem? {
        UniqueThroughFlight(chain, s);
      } else {
        UniqueThroughBlock(chain, s);
      }
    }
  }

  /** `WellGappedUnique` for a chain whose first two items are flights. */
  lemma {:induction false} UniqueThroughFlight(chain: seq<ChainItem>, s: seq<Flight>)
    requires WellGapped(chain) && FlightsOf(chain) == s && |chain| >= 2
    requires chain[0].FlightItem? && chain[1].FlightItem?
    ensures chain == WithGaps(s)
    decreases |chain|, 0
  {
    WellGappedSuffix(chain, 1);
    UniqueNextFlight(chain, s);
    WellGappedUnique(chain[1..], s[1..]);
    WithGapsUnfold(s);
    assert [FlightItem(s[0])] + Block(s[0], s[1]) == [chain[0]];
    assert chain == [chain[0]] + chain[1..];
  }

  /** `WellGappedUnique` for a chain whose second item is a block. */
  lemma {:induction false} UniqueThroughBlock(chain: seq<ChainItem>, s: seq<Flight>)
    requires WellGapped(chain) && FlightsOf(chain) == s && |chain| >= 2
    requires chain[0].FlightItem? && chain[1].Maintenance?
    ensures chain == WithGaps(s)
    decreases |chain|, 0
  {
    UniqueNextBlock(chain, s);
    WellGappedSuffix(chain, 2);
    WellGappedUnique(chain[2..], s[1..]);
    WithGapsUnfold(s);
    assert [FlightItem(s[0])] + Block(s[0], s[1]) == [chain[0], chain[1]];
    assert chain == [chain[0], chain[1]] + chain[2..];
  }

  /** A chain whose second item is a flight: the first two flights are its first two items,
      with no block between them. */
  lemma UniqueNextFlight(chain: seq<ChainItem>, s: seq<Flight>)
    requires WellGapped(chain) && FlightsOf(chain) == s && |chain| >= 2
    requires chain[0].FlightItem? && chain[1].FlightItem?
    ensures |s| >= 2 && s[1..] == FlightsOf(chain[1..])
    ensures chain[0] == FlightItem(s[0]) && Block(s[0], s[1]) == []
  {
    assert ItemOk(chain, 0);
    assert FlightsOf(chain) == [chain[0].flight] + FlightsOf(chain[1..]);
    assert FlightsOf(chain[1..]) == [chain[1].flight] + FlightsOf(chain[2..]);
  }

  /** A chain whose second item is a block: the first two flights are the items around it,
      and the block is theirs. */
  lemma UniqueNextBlock(chain: seq<ChainItem>, s: seq<Flight>)
    requires WellGapped(chain) && FlightsOf(chain) == s && |chain| >= 2
    requires chain[0].FlightItem? && chain[1].Maintenance?
    ensures |chain| >= 3 && chain[2].FlightItem? && |s| >= 2 && s[1..] == FlightsOf(chain[2..])
    ensures chain[0] == FlightItem(s[0]) && Block(s[0], s[1]) == [chain[1]]
  {
    assert ItemOk(chain, 1);
    assert FlightsOf(chain) == [chain[0].flight] + FlightsOf(chain[1..]);
    assert FlightsOf(chain[1..]) == FlightsOf(chain[2..]);
    assert FlightsOf(chain[2..]) == [chain[2].flight] + FlightsOf(chain[3..]);
  }

  lemma WithGapsUnfold(s: seq<Flight>)
    requires |s| >= 2
    ensures WithGaps(s) == [FlightItem(s[0])] + Block(s[0], s[1]) + WithGaps(s[1..])
  {
  }

  /** A single flight gives exactly that flight; no chain holds two adjacent blocks. */
  lemma ChainShape(s: seq<Flight>)
    ensures |s| == 1 ==> WithGaps(s) == [FlightItem(s[0])]
    ensures forall k :: 0 <= k < |WithGaps(s)| - 1 ==>
      !(WithGaps(s)[k].Maintenance? && WithGaps(s)[k + 1].Maintenance?)
  {
    var c := WithGaps(s);
    forall k | 0 <= k < |c| - 1 && c[k].Maintenance?
      ensures c[k + 1].FlightItem?
    {
      assert ItemOk(c, k);
    }
  }

  /** When every flight belongs to one aircraft, its chain is built from all of them. */
  lemma {:induction false} OneTail(flights: seq<Flight>, t: string)
    requires flights != []
    requires forall i :: 0 <= i < |flights| ==> flights[i].tailNum == t
    ensures BuildChains(flights) == map[t := WithGaps(SortByDep(flights))]
  {
    FilterAll(flights, OnTail(t));
    assert GroupOf(flights, t) == flights;
    assert flights[0] in flights;
    assert Tails(flights) == {t};
    var chains := BuildChains(flights);
    assert chains.Keys == {t};
    assert chains[t] == WithGaps(SortByDep(GroupOf(flights, t)));
  }

  /** The two flights of tail N123 (08:00-10:00 and 11:30-12:30) are 90 minutes
      apart and get a 90-minute block, whatever order they were fetched in. */
  lemma NinetyMinuteGap()
    ensures var a := Flight("A", "N123", "LAX", "JFK", 480, 600, 100, 30, None, 120, 500.0);
            var b := Flight("B", "N123", "JFK", "ORD", 690, 750, 100, 30, None, 120, 500.0);
            BuildChains([b, a]) == map["N123" := [FlightItem(a), Maintenance(90), FlightItem(b)]]
  {
    var a := Flight("A", "N123", "LAX", "JFK", 480, 600, 100, 30, None, 120, 500.0);
    var b := Flight("B", "N123", "JFK", "ORD", 690, 750, 100, 30, None, 120, 500.0);
    OneTail([b, a], "N123");
    SortPair(a, b);
    GapsPair(a, b);
  }

  /** Two flights fetched latest-first are sorted into departure order. */
  lemma SortPair(a: Flight, b: Flight)
    requires a.dep < b.dep
    ensures SortByDep([b, a]) == [a, b]
  {
    assert [b, a][1..] == [a];
    assert SortByDep([a]) == [a];
  }

  /** Two flights more than an hour apart get a block of their gap between them. */
  lemma GapsPair(a: Flight, b: Flight)
    requires Gap(a, b) > GapThreshold
    ensures WithGaps([a, b]) == [FlightItem(a), Maintenance(Gap(a, b)), FlightItem(b)]
  {
    assert [a, b][1..] == [b];
    assert Block(a, b) == [Maintenance(Gap(a, b))];
  }

  /** A flight arriving at 10:00 and the next departing at 11:00 leave a gap of
      exactly an hour, which gets no block. */
  lemma HourGapNoBlock()
    ensures var a := Flight("A", "N123", "LAX", "JFK", 480, 600, 100, 30, None, 120, 500.0);
            var b := Flight("B", "N123", "JFK", "ORD", 660, 750, 100, 30, None, 120, 500.0);
            WithGaps([a, b]) == [FlightItem(a), FlightItem(b)]
  {
  }

  /** The fetch callback: group by tail, sort each group by departure, insert the
      maintenance blocks. */
  function BuildChains(flights: seq<Flight>): (chains: map<string, seq<ChainItem>>)
    ensures chains.Keys == Tails(flights)
    ensures forall t :: t in chains ==> WellGapped(chains[t]) && SortedByDep(FlightsOf(chains[t]))
    ensures forall t, f :: t in chains ==>
      multiset(FlightsOf(chains[t]))[f] == if f.tailNum == t then multiset(flights)[f] else 0
    ensures forall t, d :: t in chains ==>
      Filter(FlightsOf(chains[t]), DepartsAt(d)) == Filter(GroupOf(flights, t), DepartsAt(d))
  {
    var chains := map t | t in Tails(flights) :: WithGaps(SortByDep(GroupOf(flights, t)));
    forall t, f | t in chains
      ensures multiset(FlightsOf(chains[t]))[f] == if f.tailNum == t then multiset(flights)[f] else 0
    {
      FilterCount(flights, OnTail(t), f);
    }
    forall t, d | t in chains
      ensures Filter(FlightsOf(chains[t]), DepartsAt(d)) == Filter(GroupOf(flights, t), DepartsAt(d))
    {
      SortByDepStable(GroupOf(flights, t), d);
    }
    chains
  }

  /** An empty fetch gives no chains. */
  lemma NoFlightsNoChains()
    ensures BuildChains([]) == map[]
  {
  }

  // ---------------------------------------------------------------------
  // Filters

  /** The filter record the page starts with and returns to on reset. */
  const DefaultFilters: Filters := map[
    "subtype" := TextValue(""), "start_date" := TextValue("2025-03-07"),
    "end_date" := TextValue("2025-03-07"), "respect_pre" := FlagValue(true),
    "exclude_tails" := TextValue(""), "break_trips" := FlagValue(false)]

  /** `handleFilterChange`: a checkbox stores its `checked` state, any other input its
      text; only the named key changes. */
  function HandleFilterChange(prev: Filters, name: string, inputType: string, value: string, checked: bool): (r: Filters)
    ensures r.Keys == prev.Keys + {name}
    ensures r[name] == if inputType == "checkbox" then FlagValue(checked) else TextValue(value)
    ensures forall k :: k in prev && k != name ==> r[k] == prev[k]
  {
    prev[name := if inputType == "checkbox" then FlagValue(checked) else TextValue(value)]
  }

  /** A flag checkbox's `onCheckedChange`: the flag takes the new state, just as the
      checkbox branch of `handleFilterChange` would set it. */
  function CheckedChange(prev: Filters, name: string, checked: bool): (r: Filters)
    ensures r == HandleFilterChange(prev, name, "checkbox", "", checked)
  {
    prev[name := FlagValue(checked)]
  }

  /** `resetFilters`: whatever the filters were, the page asks the backend for the
      default date and flags only. */
  function ResetFilters(prev: Filters): (r: Filters)
    ensures r.Keys == {"subtype", "start_date", "end_date", "respect_pre", "exclude_tails", "break_trips"}
    ensures QueryParams(r) == [("start_date", "2025-03-07"), ("end_date", "2025-03-07"),
                               ("respect_pre", "true"), ("break_trips", "false")]
  {
    QueryParamsInOrder(DefaultFilters);
    DefaultFilters
  }

  /** After reset, unchecking a flag changes only that flag's parameter. */
  lemma ResetThenUncheck(prev: Filters)
    ensures QueryParams(CheckedChange(ResetFilters(prev), "respect_pre", false))
      == [("start_date", "2025-03-07"), ("end_date", "2025-03-07"), ("respect_pre", "false"), ("break_trips", "false")]
  {
    var f := CheckedChange(ResetFilters(prev), "respect_pre", false);
    assert f == DefaultFilters["respect_pre" := FlagValue(false)];
    QueryParamsInOrder(f);
  }

  // ---------------------------------------------------------------------
  // Tooltip and row classes

  /** `carbon / passengers < 100` in floating point: with no passengers (0, or `null`,
      which division reads as 0) the quotient is +Infinity or NaN, never below 100,
      unless the carbon is negative; a negative count divides like any other. */
  predicate IsEfficient(f: Flight) {
    if f.passengers == 0 then f.carbon < 0.0 else f.carbon / (f.passengers as real) < 100.0
  }

  predicate IsTightTurnaround(f: Flight) { f.groundTime <= 60 }

  datatype TooltipKind = Optimized | Tight | Balanced

  function KindLabel(k: TooltipKind): string {
    match k
    case Optimized => "Optimized"
    case Tight => "Tight"
    case Balanced => "Balanced"
  }

  /** `getFlightTooltip`: efficiency is checked first, so an efficient flight reads
      "Optimized" even with a tight turnaround. */
  function TooltipKindOf(f: Flight): (k: TooltipKind)
    ensures k == Optimized <==> IsEfficient(f)
    ensures k == Tight <==> !IsEfficient(f) && f.groundTime <= 60
    ensures k == Balanced <==> !IsEfficient(f) && f.groundTime > 60
  {
    if IsEfficient(f) then Optimized else if f.groundTime <= 60 then Tight else Balanced
  }

  /** The tooltip text. */
  function FlightTooltip(f: Flight): (s: string)
    ensures IsPrefix(KindLabel(TooltipKindOf(f)) + ": ", s)
    ensures var n := IntToString(f.passengers); |n| <= |s| && ParseInt(s[|s| - |n|..]) == Num(f.passengers)
  {
    var head := KindLabel(TooltipKindOf(f)) + ": ";
    var s := head + f.origin + " → " + f.dest + ", Passengers: " + IntToString(f.passengers);
    assert s[..|head|] == head;
    var n := IntToString(f.passengers);
    assert s[|s| - |n|..] == n;
    ParseIntIntToString(f.passengers);
    s
  }

  /** With passengers aboard, "Optimized" means less than 100 kg of carbon per passenger. */
  lemma EfficientPerPassenger(f: Flight)
    requires f.passengers > 0
    ensures TooltipKindOf(f) == Optimized <==> f.carbon < 100.0 * (f.passengers as real)
  {
    var p := f.passengers as real;
    assert f.carbon / p * p == f.carbon;
  }

  /** A negative passenger count, which the data-entry form and the backend let through,
      flips the comparison: "Optimized" means more than 100 kg of carbon per passenger
      below zero, so any flight with non-negative carbon reads "Optimized". */
  lemma EfficientNegativeCount(f: Flight)
    requires f.passengers < 0
    ensures TooltipKindOf(f) == Optimized <==> f.carbon > 100.0 * (f.passengers as real)
  {
    var p := f.passengers as real;
    var q := f.carbon / p;
    assert q * p == f.carbon;
    assert (100.0 - q) * p == 100.0 * p - f.carbon;
    assert (100.0 - q) * p == (q - 100.0) * -p;
    if q < 100.0 {
      assert (100.0 - q) * -p > 0.0;
      assert (100.0 - q) * p == -((100.0 - q) * -p);
    } else {
      NonNegativeProduct(q - 100.0, -p);
    }
  }

  lemma NonNegativeProduct(a: real, b: real)
    requires a >= 0.0 && b >= 0.0
    ensures a * b >= 0.0
  {
  }

  /** `getRowClass`: the classes `cn` joins for a schedule row. */
  function RowClasses(f: Flight): (cs: seq<string>)
    ensures "efficient-flight" in cs <==> IsEfficient(f)
    ensures "tight-turnaround" in cs <==> IsTightTurnaround(f)
    ensures |cs| <= 2
  {
    (if IsEfficient(f) then ["efficient-flight"] else []) + (if IsTightTurnaround(f) then ["tight-turnaround"] else [])
  }

  /** The row is highlighted as efficient exactly when its tooltip reads "Optimized",
      and a tight-turnaround row reads "Tight" unless it is efficient. */
  lemma RowAgreesWithTooltip(f: Flight)
    ensures "efficient-flight" in RowClasses(f) <==> TooltipKindOf(f) == Optimized
    ensures "tight-turnaround" in RowClasses(f) && TooltipKindOf(f) != Optimized ==> TooltipKindOf(f) == Tight
  {
  }
}
