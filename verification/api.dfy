/**
 * The client service layer of the crew dashboard (project_1/lib/api.jsx):
 * the query string that `fetchSchedule` and `fetchDisruptions` send, and
 * the crew store that stands in for a backend. The browser's `localStorage`
 * is replaced by an in-memory `Store` with one slot per storage key
 * ("crewMembers" and "crewAssignments"); an absent slot is an absent key.
 */
module Api {
  import opened Wrappers
  import opened Text
  import opened Seqs

  // ---------------------------------------------------------------------
  // Query parameters

  /** A filter value as the schedule page holds it: text inputs or checkboxes. */
  datatype FilterValue = TextValue(text: string) | FlagValue(flag: bool)

  /** The filter object; a key that is absent is `undefined`. */
  type Filters = map<string, FilterValue>

  /** JavaScript truthiness of a filter value: the empty string and `false` are falsy. */
  predicate Truthy(v: FilterValue) {
    match v
    case TextValue(t) => t != ""
    case FlagValue(b) => b
  }

  /** The text `URLSearchParams.append` stores for a value. */
  function Render(v: FilterValue): string {
    match v
    case TextValue(t) => t
    case FlagValue(b) => if b then "true" else "false"
  }

  /** The six parameters in the order they are appended; the flag says whether the
      parameter needs a truthy value (`if (filters.x)`) rather than only a defined one
      (`if (filters.x !== undefined)`). */
  const ParamRules: seq<(string, bool)> := [
    ("subtype", true), ("start_date", true), ("end_date", true),
    ("respect_pre", false), ("exclude_tails", true), ("break_trips", false)]

  /** Parameters added only when the filter value is truthy. */
  const TruthyKeys: set<string> := {"subtype", "start_date", "end_date", "exclude_tails"}

  /** Parameters added whenever the filter value is defined, even when it is `false`. */
  const DefinedKeys: set<string> := {"respect_pre", "break_trips"}

  /** The parameters the rules produce, in rule order. */
  function ParamsFor(f: Filters, rules: seq<(string, bool)>): seq<(string, string)>
  {
    if rules == [] then []
    else
      Param(f, rules[0].0, rules[0].1) + ParamsFor(f, rules[1..])
  }

  /** The value of the first parameter named `k`, as the backend's `request.args.get` reads
      it from the query string (see `LookupFirst`). */
  function Lookup(q: seq<(string, string)>, k: string): (r: Option<string>)
    ensures r.None? <==> forall i :: 0 <= i < |q| ==> q[i].0 != k
  {
    if q == [] then None else if q[0].0 == k then Some(q[0].1) else Lookup(q[1..], k)
  }

  /** The value found is that of the first parameter named `k`. */
  lemma {:induction false} LookupFirst(q: seq<(string, string)>, k: string)
    ensures Lookup(q, k).Some? ==>
      exists i :: 0 <= i < |q| && q[i] == (k, Lookup(q, k).value) && forall j :: 0 <= j < i ==> q[j].0 != k
  {
    if q != [] && q[0].0 != k && Lookup(q, k).Some? {
      LookupFirst(q[1..], k);
      var i :| 0 <= i < |q[1..]| && q[1..][i] == (k, Lookup(q, k).value)
        && forall j :: 0 <= j < i ==> q[1..][j].0 != k;
      assert q[i + 1] == (k, Lookup(q, k).value);
      assert forall j :: 0 <= j < i + 1 ==> q[j].0 != k by {
        forall j | 0 < j < i + 1 ensures q[j].0 != k {
          assert q[j] == q[1..][j - 1];
        }
      }
    }
  }

  /** Whether a query parameter `k` is included and with which value. */
  function Expected(f: Filters, k: string): Option<string> {
    if k in TruthyKeys then (if k in f && Truthy(f[k]) then Some(Render(f[k])) else None)
    else if k in DefinedKeys then (if k in f then Some(Render(f[k])) else None)
    else None
  }

  /** The query parameters of `fetchSchedule` (and, identically, `fetchDisruptions`), in order. */
  function QueryParams(f: Filters): (q: seq<(string, string)>)
    ensures |q| <= 6
    ensures forall k :: Lookup(q, k) == Expected(f, k)
  {
    var q := ParamsFor(f, ParamRules);
    forall k ensures Lookup(q, k) == Expected(f, k) {
      LookupParamsFor(f, ParamRules, k);
      if k == "subtype" { assert ParamRules[0].0 == k; }
      else if k == "start_date" { assert ParamRules[1].0 == k; }
      else if k == "end_date" { assert ParamRules[2].0 == k; }
      else if k == "respect_pre" { assert ParamRules[3].0 == k; }
      else if k == "exclude_tails" { assert ParamRules[4].0 == k; }
      else if k == "break_trips" { assert ParamRules[5].0 == k; }
    }
    LookupParamsFor(f, ParamRules, "");
    q
  }

  /** The parameters in the order the six `append` calls add them. */
  lemma QueryParamsInOrder(f: Filters)
    ensures QueryParams(f) == Param(f, "subtype", true) + (Param(f, "start_date", true) + (Param(f, "end_date", true)
      + (Param(f, "respect_pre", false) + (Param(f, "exclude_tails", true) + Param(f, "break_trips", false)))))
  {
    ParamsForSix(f, ParamRules);
  }

  /** Six rules contribute their parameters one after the other. */
  lemma {:induction false} ParamsForSix(f: Filters, rules: seq<(string, bool)>)
    requires |rules| == 6
    ensures ParamsFor(f, rules) == Param(f, rules[0].0, rules[0].1) + (Param(f, rules[1].0, rules[1].1)
      + (Param(f, rules[2].0, rules[2].1) + (Param(f, rules[3].0, rules[3].1)
      + (Param(f, rules[4].0, rules[4].1) + Param(f, rules[5].0, rules[5].1)))))
  {
    var r1, r2, r3, r4, r5 := rules[1..], rules[2..], rules[3..], rules[4..], rules[5..];
    assert r1[1..] == r2 && r2[1..] == r3 && r3[1..] == r4 && r4[1..] == r5 && r5[1..] == [];
    assert r1[0] == rules[1] && r2[0] == rules[2] && r3[0] == rules[3] && r4[0] == rules[4] && r5[0] == rules[5];
    var p5 := Param(f, rules[5].0, rules[5].1);
    ParamsForUnfold(f, r5);
    assert ParamsFor(f, r5) == p5 + [] == p5;
    ParamsForUnfold(f, r4);
    ParamsForUnfold(f, r3);
    ParamsForUnfold(f, r2);
    ParamsForUnfold(f, r1);
    ParamsForUnfold(f, rules);
  }

  /** The one-element list a rule contributes when it fires. */
  function Param(f: Filters, k: string, needsTruthy: bool): seq<(string, string)> {
    if k in f && (!needsTruthy || Truthy(f[k])) then [(k, Render(f[k]))] else []
  }

  lemma ParamsForUnfold(f: Filters, rules: seq<(string, bool)>)
    requires rules != []
    ensures ParamsFor(f, rules) == Param(f, rules[0].0, rules[0].1) + ParamsFor(f, rules[1..])
  {
  }

  /** Looking a parameter up finds its rule's value when that rule fires, and nothing
      when no rule names it. */
  lemma {:induction false} LookupParamsFor(f: Filters, rules: seq<(string, bool)>, k: string)
    requires forall i, j :: 0 <= i < j < |rules| ==> rules[i].0 != rules[j].0
    ensures |ParamsFor(f, rules)| <= |rules|
    ensures forall i :: 0 <= i < |rules| && rules[i].0 == k ==>
      Lookup(ParamsFor(f, rules), k) == if k in f && (!rules[i].1 || Truthy(f[k])) then Some(Render(f[k])) else None
    ensures (forall i :: 0 <= i < |rules| ==> rules[i].0 != k) ==> Lookup(ParamsFor(f, rules), k) == None
  {
    if rules != [] {
      LookupParamsFor(f, rules[1..], k);
      var head := Param(f, rules[0].0, rules[0].1);
      var rest := ParamsFor(f, rules[1..]);
      assert ParamsFor(f, rules) == head + rest;
      if head == [] {
        assert head + rest == rest;
      } else {
        assert (head + rest)[1..] == rest;
      }
      forall i | 0 < i < |rules| && rules[i].0 == k
        ensures Lookup(ParamsFor(f, rules), k) == if k in f && (!rules[i].1 || Truthy(f[k])) then Some(Render(f[k])) else None
      {
        assert rules[1..][i - 1] == rules[i];
      }
      if forall i :: 0 <= i < |rules| ==> rules[i].0 != k {
        forall i | 0 <= i < |rules[1..]| ensures rules[1..][i].0 != k {
          assert rules[1..][i] == rules[i + 1];
        }
      }
    }
  }

  // ---------------------------------------------------------------------
  // Crew store

  /** The fields of a crew member as the crew form submits them. */
  datatype CrewFields = CrewFields(
    crewID: string, firstName: string, lastName: string, age: Number, airline: string,
    currentLocation: string, role: string, qualification: string, experience: Number, status: string)

  /** The object passed to `addCrewMember`; it may carry an `id` of its own. */
  datatype CrewData = CrewData(id: Option<int>, fields: CrewFields)

  /** A stored crew member. */
  datatype CrewMember = CrewMember(id: int, fields: CrewFields)

  /** A stored crew-to-flight assignment; `assignedAt` is the clock reading at assignment. */
  datatype Assignment = Assignment(crewId: string, flightId: string, assignedAt: string)

  /** The two storage keys; `None` is a key never written. */
  datatype Store = Store(crewMembers: Option<seq<CrewMember>>, crewAssignments: Option<seq<Assignment>>)

  const EmptyStore := Store(None, None)

  /** `fetchCrewMembers`: the stored list, or the empty list when the key is absent. */
  function FetchCrewMembers(st: Store): (r: seq<CrewMember>)
    ensures st.crewMembers.None? ==> r == []
    ensures st.crewMembers.Some? ==> r == st.crewMembers.value
  {
    st.crewMembers.GetOr([])
  }

  /** `getCrewAssignments`: the stored list, or the empty list when the key is absent. */
  function GetCrewAssignments(st: Store): (r: seq<Assignment>)
    ensures st.crewAssignments.None? ==> r == []
    ensures st.crewAssignments.Some? ==> r == st.crewAssignments.value
  {
    st.crewAssignments.GetOr([])
  }

  /** `addCrewMember`: append one member whose `id` is one more than the number stored
      before, unless the data carries its own `id`, which the object spread lets win. */
  function AddCrewMember(st: Store, data: CrewData): (r: (Store, CrewMember))
    ensures r.0.crewMembers == Some(FetchCrewMembers(st) + [r.1])
    ensures r.1.fields == data.fields
    ensures data.id.None? ==> r.1.id == |FetchCrewMembers(st)| + 1
    ensures data.id.Some? ==> r.1.id == data.id.value
    ensures r.0.crewAssignments == st.crewAssignments
  {
    var members := FetchCrewMembers(st);
    var added := CrewMember(data.id.GetOr(|members| + 1), data.fields);
    (st.(crewMembers := Some(members + [added])), added)
  }

  /** The stored ids are exactly 1, 2, ..., n in order. */
  predicate NumberedFromOne(members: seq<CrewMember>) {
    forall i :: 0 <= i < |members| ==> members[i].id == i + 1
  }

  /** Adding members without their own `id` keeps the ids numbered 1..n. */
  lemma AddKeepsNumbering(st: Store, data: CrewData)
    requires NumberedFromOne(FetchCrewMembers(st))
    requires data.id.None?
    ensures NumberedFromOne(FetchCrewMembers(AddCrewMember(st, data).0))
    ensures |FetchCrewMembers(AddCrewMember(st, data).0)| == |FetchCrewMembers(st)| + 1
  {
  }

  /** `assignCrewToFlight`: append exactly one assignment stamped with the clock reading `now`. */
  function AssignCrewToFlight(st: Store, crewId: string, flightId: string, now: string): (r: (Store, Assignment))
    ensures r.1 == Assignment(crewId, flightId, now)
    ensures r.0.crewAssignments == Some(GetCrewAssignments(st) + [r.1])
    ensures r.0.crewMembers == st.crewMembers
  {
    var added := Assignment(crewId, flightId, now);
    (st.(crewAssignments := Some(GetCrewAssignments(st) + [added])), added)
  }

  /** Whether an assignment pairs the given crew and flight. */
  predicate Pairs(a: Assignment, crewId: string, flightId: string) {
    a.crewId == crewId && a.flightId == flightId
  }

  function KeepUnless(crewId: string, flightId: string): Assignment -> bool {
    (a: Assignment) => !Pairs(a, crewId, flightId)
  }

  /** `removeCrewAssignment`: drop every assignment of that crew to that flight, keep
      the others in order, and report success. */
  function RemoveCrewAssignment(st: Store, crewId: string, flightId: string): (r: (Store, bool))
    ensures r.1
    ensures r.0.crewMembers == st.crewMembers
    ensures r.0.crewAssignments.Some?
    ensures forall a :: a in GetCrewAssignments(r.0) ==> !Pairs(a, crewId, flightId)
    ensures forall a :: a in GetCrewAssignments(st) && !Pairs(a, crewId, flightId) ==> a in GetCrewAssignments(r.0)
  {
    var kept := Filter(GetCrewAssignments(st), KeepUnless(crewId, flightId));
    FilterMembersOf(GetCrewAssignments(st), crewId, flightId);
    (st.(crewAssignments := Some(kept)), true)
  }

  lemma FilterMembersOf(s: seq<Assignment>, crewId: string, flightId: string)
    ensures forall a :: a in Filter(s, KeepUnless(crewId, flightId)) <==> a in s && !Pairs(a, crewId, flightId)
  {
    forall a {
      FilterMember(s, KeepUnless(crewId, flightId), a);
    }
  }

  /** Removal keeps the other assignments in their order and with their multiplicity. */
  lemma RemoveKeepsOthers(st: Store, crewId: string, flightId: string)
    ensures IsSubsequence(GetCrewAssignments(RemoveCrewAssignment(st, crewId, flightId).0), GetCrewAssignments(st))
    ensures forall a :: !Pairs(a, crewId, flightId) ==>
      multiset(GetCrewAssignments(RemoveCrewAssignment(st, crewId, flightId).0))[a] == multiset(GetCrewAssignments(st))[a]
  {
    FilterIsSubsequence(GetCrewAssignments(st), KeepUnless(crewId, flightId));
    forall a | !Pairs(a, crewId, flightId) {
      FilterCount(GetCrewAssignments(st), KeepUnless(crewId, flightId), a);
    }
  }

  /** Removing the same pair twice is removing it once. */
  lemma RemoveIdempotent(st: Store, crewId: string, flightId: string)
    ensures var once := RemoveCrewAssignment(st, crewId, flightId).0;
            RemoveCrewAssignment(once, crewId, flightId).0 == once
  {
    FilterIdempotent(GetCrewAssignments(st), KeepUnless(crewId, flightId));
  }

  /** Removing a pair that is not assigned changes no assignment list. */
  lemma RemoveAbsentIsNoop(st: Store, crewId: string, flightId: string)
    requires forall a :: a in GetCrewAssignments(st) ==> !Pairs(a, crewId, flightId)
    ensures GetCrewAssignments(RemoveCrewAssignment(st, crewId, flightId).0) == GetCrewAssignments(st)
  {
    FilterAll(GetCrewAssignments(st), KeepUnless(crewId, flightId));
  }

  /** Assigning a new pair and then removing it gives back the assignments read before. */
  lemma AssignThenRemove(st: Store, crewId: string, flightId: string, now: string)
    requires forall a :: a in GetCrewAssignments(st) ==> !Pairs(a, crewId, flightId)
    ensures var withPair := AssignCrewToFlight(st, crewId, flightId, now).0;
            GetCrewAssignments(RemoveCrewAssignment(withPair, crewId, flightId).0) == GetCrewAssignments(st)
  {
    var before := GetCrewAssignments(st);
    var keep := KeepUnless(crewId, flightId);
    FilterAppend(before, [Assignment(crewId, flightId, now)], keep);
    FilterAll(before, keep);
    assert Filter([Assignment(crewId, flightId, now)], keep) == [];
  }
}
