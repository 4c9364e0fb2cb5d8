/** The per-scenario record of the dataset generator: a summary of the
    detected conflicts and one schedule for every vehicle involved in any of
    them, first come first served, each vehicle entering once the one before
    it has cleared the intersection. */
module Scheduler {
  import opened Wrappers
  import opened Vehicles
  import opened Rules
  import opened Waiting
  import opened Detection
  import opened Sorting

  // ----- summary of the conflicts -----

  datatype Pair = Pair(vehicle1Id: string, vehicle2Id: string)

  /** `all_conflict_vehicle_ids`: every identifier named by a record. */
  function ConflictIds(cs: seq<Conflict>): set<string> {
    (set c | c in cs :: c.vehicle1Id) + (set c | c in cs :: c.vehicle2Id)
  }

  datatype Summary = Summary(
    isConflict: string, count: nat, places: seq<string>,
    pairs: seq<Pair>, decisions: seq<string>, ids: set<string>)

  /** The `is_conflict` flag, the count, the places, the pairs and the
      decisions of the records, in order, and the identifiers they involve. */
  method Summarize(conflicts: seq<Conflict>) returns (s: Summary)
    ensures s.isConflict == (if conflicts == [] then "no" else "yes")
    ensures s.count == |conflicts| == |s.places| == |s.pairs| == |s.decisions|
    ensures forall k :: 0 <= k < |conflicts| ==>
      && s.places[k] == Place
      && s.pairs[k] == Pair(conflicts[k].vehicle1Id, conflicts[k].vehicle2Id)
      && s.decisions[k] == conflicts[k].decision
    ensures s.ids == ConflictIds(conflicts)
  {
    var isConflict := if conflicts != [] then "yes" else "no";
    var places := seq(|conflicts|, _ => Place);
    var pairs: seq<Pair> := [];
    var decisions: seq<string> := [];
    var ids: set<string> := {};
    for k := 0 to |conflicts|
      invariant |pairs| == k == |decisions|
      invariant forall m :: 0 <= m < k ==>
        pairs[m] == Pair(conflicts[m].vehicle1Id, conflicts[m].vehicle2Id) && decisions[m] == conflicts[m].decision
      invariant ids == ConflictIds(conflicts[..k])
    {
      var c := conflicts[k];
      assert conflicts[..k + 1] == conflicts[..k] + [c];
      ids := ids + {c.vehicle1Id, c.vehicle2Id};
      pairs := pairs + [Pair(c.vehicle1Id, c.vehicle2Id)];
      decisions := decisions + [c.decision];
    }
    assert conflicts[..|conflicts|] == conflicts;
    s := Summary(isConflict, |conflicts|, places, pairs, decisions, ids);
  }

  /** Vehicle `id` takes part in a conflict with another vehicle. */
  predicate Involved(vs: seq<Vehicle>, id: string) {
    exists a, b :: 0 <= a < b < |vs| && InConflict(vs[a], vs[b]) && (vs[a].id == id || vs[b].id == id)
  }

  /** For the records of `detect_conflicts`, an identifier is involved
      exactly when its vehicle is in conflict with another vehicle. */
  lemma ConflictIdsOfDetection(vs: seq<Vehicle>, id: string)
    ensures id in ConflictIds(Conflicts(vs)) <==> Involved(vs, id)
  {
    if id in ConflictIds(Conflicts(vs)) {
      InvolvedIdHasPair(vs, id);
    }
    if Involved(vs, id) {
      var a, b :| 0 <= a < b < |vs| && InConflict(vs[a], vs[b]) && (vs[a].id == id || vs[b].id == id);
      PairIdsInvolved(vs, a, b);
    }
  }

  lemma InvolvedIdHasPair(vs: seq<Vehicle>, id: string)
    requires id in ConflictIds(Conflicts(vs))
    ensures Involved(vs, id)
  {
    ConflictsExact(vs);
    var c :| c in Conflicts(vs) && (c.vehicle1Id == id || c.vehicle2Id == id);
    var a, b :| 0 <= a < b < |vs| && InConflict(vs[a], vs[b]) && c == ConflictOf(vs[a], vs[b]);
    assert c.vehicle1Id == vs[a].id && c.vehicle2Id == vs[b].id;
  }

  lemma PairIdsInvolved(vs: seq<Vehicle>, a: nat, b: nat)
    requires a < b < |vs| && InConflict(vs[a], vs[b])
    ensures vs[a].id in ConflictIds(Conflicts(vs)) && vs[b].id in ConflictIds(Conflicts(vs))
  {
    ConflictsExact(vs);
    var c := ConflictOf(vs[a], vs[b]);
    assert c in Conflicts(vs);
    assert c.vehicle1Id == vs[a].id && c.vehicle2Id == vs[b].id;
  }

  // ----- who takes part -----

  /** `[v for v in vehicles if (v.vehicle_id in ids) == inside]` */
  function Select(vs: seq<Vehicle>, ids: set<string>, inside: bool): seq<Vehicle>
    decreases |vs|
  {
    if vs == [] then []
    else
      var last := vs[|vs| - 1];
      Select(vs[..|vs| - 1], ids, inside) + (if (last.id in ids) == inside then [last] else [])
  }

  /** Selection keeps exactly the vehicles on the requested side, and keeps
      identifiers distinct. */
  lemma {:induction false} SelectSpec(vs: seq<Vehicle>, ids: set<string>, inside: bool)
    ensures forall v :: v in Select(vs, ids, inside) <==> v in vs && (v.id in ids) == inside
    ensures DistinctIds(vs) ==> DistinctIds(Select(vs, ids, inside))
    decreases |vs|
  {
    if vs != [] {
      var n := |vs| - 1;
      assert vs == vs[..n] + [vs[n]];
      SelectSpec(vs[..n], ids, inside);
      if DistinctIds(vs) {
        DistinctAppend(vs[..n], vs[n]);
        DistinctAppend(Select(vs[..n], ids, inside), vs[n]);
      }
    }
  }

  /** Appending a vehicle appends it to the selection when it is on the
      requested side. */
  lemma SelectAppend(vs: seq<Vehicle>, x: Vehicle, ids: set<string>, inside: bool)
    ensures Select(vs + [x], ids, inside) == Select(vs, ids, inside) + (if (x.id in ids) == inside then [x] else [])
  {
    assert (vs + [x])[..|vs|] == vs;
  }

  /** Selection keeps the scenario order: the selected vehicles arriving at
      any one time are, in order, the selection of the vehicles arriving at
      that time. */
  lemma {:induction false} SelectWithTime(vs: seq<Vehicle>, ids: set<string>, inside: bool, time: Time)
    ensures WithTime(Select(vs, ids, inside), time) == Select(WithTime(vs, time), ids, inside)
    decreases |vs|
  {
    if vs != [] {
      var n := |vs| - 1;
      var init, last := vs[..n], vs[n];
      SelectWithTime(init, ids, inside, time);
      var sel, early := Select(init, ids, inside), WithTime(init, time);
      assert Select(vs, ids, inside) == sel + (if (last.id in ids) == inside then [last] else []);
      assert WithTime(vs, time) == early + (if last.time == time then [last] else []);
      if (last.id in ids) == inside {
        assert Select(vs, ids, inside) == sel + [last];
        WithTimeAppend(sel, last, time);
      } else {
        assert Select(vs, ids, inside) == sel;
      }
      if last.time == time {
        assert WithTime(vs, time) == early + [last];
        SelectAppend(early, last, ids, inside);
      } else {
        assert WithTime(vs, time) == early;
      }
    }
  }

  /** Every vehicle in a conflict found by `detect_conflicts` arrives in
      finite time, so a stopped vehicle never takes part in a schedule. */
  lemma ConflictParticipantsFinite(vs: seq<Vehicle>, v: Vehicle)
    requires DistinctIds(vs)
    requires v in Select(vs, ConflictIds(Conflicts(vs)), true)
    ensures v.time.Finite? && v.move != Unknown
  {
    SelectSpec(vs, ConflictIds(Conflicts(vs)), true);
    ConflictIdsOfDetection(vs, v.id);
    var a, b :| 0 <= a < b < |vs| && InConflict(vs[a], vs[b]) && (vs[a].id == v.id || vs[b].id == v.id);
    InConflictFacts(vs[a], vs[b]);
    var k :| 0 <= k < |vs| && vs[k] == v;
    assert k == a || k == b;
  }

  // ----- the schedule -----

  /** Python float `t + w`. */
  function Delayed(t: Time, w: Time): Time {
    match (t, w)
    case (Finite(a), Finite(b)) => Finite(a + b)
    case _ => Inf
  }

  /** When the `k`-th vehicle of the order enters: its own arrival, held back
      by the clearance wait behind the vehicle entering before it. */
  function Entry(s: seq<Vehicle>, k: nat): Time
    requires k < |s|
    decreases k, 1
  {
    if k == 0 then s[0].time else Delayed(s[k].time, Hold(s, k))
  }

  /** The unrounded wait of the `k`-th vehicle of the order. */
  function Hold(s: seq<Vehicle>, k: nat): Time
    requires 0 < k < |s|
    decreases k, 0
  {
    ClearanceWait(Entry(s, k - 1), s[k].time)
  }

  /** In an order sorted by arrival time, a vehicle enters in finite time
      exactly when it arrives in finite time, and its wait is always finite:
      the overflow of `math.ceil` cannot occur. */
  lemma {:induction false} EntryFinite(s: seq<Vehicle>, k: nat)
    requires SortedByTime(s) && k < |s|
    ensures Entry(s, k).Inf? <==> s[k].time.Inf?
    ensures k > 0 ==> Hold(s, k).Finite?
  {
    if k > 0 {
      EntryFinite(s, k - 1);
      assert TimeLe(s[k - 1].time, s[k].time);
    }
  }

  /** The rounded waiting time of the `k`-th vehicle of the order. */
  function WaitAt(s: seq<Vehicle>, k: nat): int
    requires SortedByTime(s) && k < |s|
  {
    if k == 0 then 0
    else
      EntryFinite(s, k);
      Ceil(Hold(s, k).seconds)
  }

  /** A vehicle enters at its own arrival or as soon as the vehicle before it
      has cleared, whichever is later; the rounded wait is the least whole
      number of seconds covering that hold-up, and never negative. */
  lemma ScheduleSeparation(s: seq<Vehicle>, k: nat)
    requires SortedByTime(s) && 0 < k < |s| && s[k].time.Finite?
    ensures Entry(s, k - 1).Finite? && Entry(s, k).Finite?
    ensures Entry(s, k).seconds == Max(s[k].time.seconds, Entry(s, k - 1).seconds + TraversalTime)
    ensures Entry(s, k).seconds >= Entry(s, k - 1).seconds + TraversalTime
    ensures WaitAt(s, k) >= 0
    ensures s[k].time.seconds + WaitAt(s, k) as real >= Entry(s, k).seconds
    ensures s[k].time.seconds + (WaitAt(s, k) - 1) as real < Entry(s, k).seconds
  {
    EntryFinite(s, k);
    EntryFinite(s, k - 1);
    assert TimeLe(s[k - 1].time, s[k].time);
  }

  /** Stopped vehicles, which sort last, never wait. */
  lemma StoppedNeverWaits(s: seq<Vehicle>, k: nat)
    requires SortedByTime(s) && k < |s| && s[k].time.Inf?
    ensures WaitAt(s, k) == 0
  {
  }

  /** The identifiers of a sequence, by position. */
  lemma IdSetByIndex(vs: seq<Vehicle>)
    ensures IdSet(vs) == set m | 0 <= m < |vs| :: vs[m].id
  {
    forall id | id in IdSet(vs) ensures id in set m | 0 <= m < |vs| :: vs[m].id {
      var v :| v in vs && v.id == id;
      var m :| 0 <= m < |vs| && vs[m] == v;
    }
  }

  /** One step of the waiting loop, in terms of the schedule. */
  lemma WaitStep(order: seq<Vehicle>, k: nat)
    requires SortedByTime(order) && 0 < k < |order|
    ensures var wait := ClearanceWait(Entry(order, k - 1), order[k].time);
      && wait.Finite?
      && Ceil(wait.seconds) == WaitAt(order, k)
      && Delayed(order[k].time, wait) == Entry(order, k)
  {
    EntryFinite(order, k);
  }

  /** `overall_priority_order[v] = idx + 1` along the order. */
  method Ranks(order: seq<Vehicle>) returns (priority: map<string, Option<int>>)
    requires DistinctIds(order)
    ensures priority.Keys == IdSet(order)
    ensures forall k {:trigger priority[order[k].id]} :: 0 <= k < |order| ==> priority[order[k].id] == Some(k + 1)
  {
    priority := map[];
    for idx := 0 to |order|
      invariant priority.Keys == set m | 0 <= m < idx :: order[m].id
      invariant forall m :: 0 <= m < idx ==> priority[order[m].id] == Some(m + 1)
    {
      priority := priority[order[idx].id := Some(idx + 1)];
    }
    IdSetByIndex(order);
  }

  /** What the waiting loop knows before handling the vehicle at `idx`. */
  ghost predicate WaitLoopInv(order: seq<Vehicle>, idx: nat, waiting: map<string, int>, arrival: map<string, Time>)
    requires SortedByTime(order) && idx <= |order|
  {
    && (forall m :: 0 <= m < |order| ==> order[m].id in arrival)
    && (0 < idx ==> arrival[order[idx - 1].id] == Entry(order, idx - 1))
    && (forall m {:trigger arrival[order[m].id]} :: idx <= m < |order| ==> arrival[order[m].id] == order[m].time)
    && waiting.Keys == (set m | 0 <= m < idx :: order[m].id)
    && (forall m {:trigger waiting[order[m].id]} :: 0 <= m < idx ==> waiting[order[m].id] == WaitAt(order, m))
  }

  /** `vehicle_arrival_times`: each vehicle's own arrival, by identifier. */
  function OwnArrivals(order: seq<Vehicle>): (arrival: map<string, Time>)
    requires DistinctIds(order)
    ensures forall m :: 0 <= m < |order| ==> order[m].id in arrival && arrival[order[m].id] == order[m].time
  {
    map k | 0 <= k < |order| :: order[k].id := order[k].time
  }

  lemma WaitLoopStart(order: seq<Vehicle>)
    requires DistinctIds(order) && SortedByTime(order)
    ensures WaitLoopInv(order, 0, map[], OwnArrivals(order))
  {
  }

  /** Once every vehicle is handled, the loop has the waiting time of each. */
  lemma WaitLoopDone(order: seq<Vehicle>, waiting: map<string, int>, arrival: map<string, Time>)
    requires SortedByTime(order) && WaitLoopInv(order, |order|, waiting, arrival)
    ensures waiting.Keys == IdSet(order)
    ensures forall k {:trigger waiting[order[k].id]} :: 0 <= k < |order| ==> waiting[order[k].id] == WaitAt(order, k)
  {
    IdSetByIndex(order);
  }

  /** The first iteration of the waiting loop keeps its invariant. */
  lemma WaitLoopFirst(order: seq<Vehicle>, waiting: map<string, int>, arrival: map<string, Time>)
    requires DistinctIds(order) && SortedByTime(order) && 0 < |order|
    requires WaitLoopInv(order, 0, waiting, arrival)
    ensures WaitLoopInv(order, 1, waiting[order[0].id := 0], arrival)
  {
    assert forall m :: 0 < m < |order| ==> order[m].id != order[0].id;
  }

  /** A later iteration of the waiting loop keeps its invariant: the wait
      it computes is the schedule's hold-up, and finite. */
  lemma WaitLoopStep(order: seq<Vehicle>, idx: nat, waiting: map<string, int>, arrival: map<string, Time>, wait: Time)
    requires DistinctIds(order) && SortedByTime(order) && 0 < idx < |order|
    requires WaitLoopInv(order, idx, waiting, arrival)
    requires wait == ClearanceWait(arrival[order[idx - 1].id], arrival[order[idx].id])
    ensures wait.Finite?
    ensures WaitLoopInv(order, idx + 1, waiting[order[idx].id := Ceil(wait.seconds)],
                        arrival[order[idx].id := Delayed(arrival[order[idx].id], wait)])
  {
    assert forall m :: 0 <= m < |order| && m != idx ==> order[m].id != order[idx].id;
    WaitStep(order, idx);
  }

  /** The waiting times along the order: the first vehicle waits nothing;
      each later one waits, rounded up, until the vehicle before it has
      cleared, and its arrival is pushed back by the unrounded wait. */
  method Waits(order: seq<Vehicle>) returns (waiting: map<string, int>)
    requires DistinctIds(order) && SortedByTime(order)
    ensures waiting.Keys == IdSet(order)
    ensures forall k {:trigger waiting[order[k].id]} :: 0 <= k < |order| ==> waiting[order[k].id] == WaitAt(order, k)
  {
    waiting := map[];
    var arrival := OwnArrivals(order);
    WaitLoopStart(order);
    for idx := 0 to |order|
      invariant WaitLoopInv(order, idx, waiting, arrival)
    {
      var vehicle := order[idx];
      if idx == 0 {
        WaitLoopFirst(order, waiting, arrival);
        waiting := waiting[vehicle.id := 0];
        assert WaitLoopInv(order, idx + 1, waiting, arrival);
      } else {
        var previous := order[idx - 1];
        assert previous.id in arrival && vehicle.id in arrival;
        var wait := ClearanceWait(arrival[previous.id], arrival[vehicle.id]);
        WaitLoopStep(order, idx, waiting, arrival, wait);
        waiting := waiting[vehicle.id := Ceil(wait.seconds)];
        arrival := arrival[vehicle.id := Delayed(arrival[vehicle.id], wait)];
        assert WaitLoopInv(order, idx + 1, waiting, arrival);
      }
    }
    WaitLoopDone(order, waiting, arrival);
  }

  /** The vehicles of `order` are ranked 1, 2, ... along it and wait as
      the schedule says. */
  ghost predicate RanksAndWaits(order: seq<Vehicle>, priority: map<string, Option<int>>, waiting: map<string, int>)
    requires SortedByTime(order)
  {
    forall k {:trigger priority[order[k].id]} {:trigger waiting[order[k].id]} :: 0 <= k < |order| ==>
      && order[k].id in priority && priority[order[k].id] == Some(k + 1)
      && order[k].id in waiting && waiting[order[k].id] == WaitAt(order, k)
  }

  /** Giving a vehicle outside the order no rank and no wait leaves the
      schedule of the order as it was. */
  lemma RanksAndWaitsFrame(order: seq<Vehicle>, priority: map<string, Option<int>>, waiting: map<string, int>, id: string)
    requires SortedByTime(order) && RanksAndWaits(order, priority, waiting) && id !in IdSet(order)
    ensures RanksAndWaits(order, priority[id := None], waiting[id := 0])
  {
    forall k | 0 <= k < |order| ensures order[k].id != id {
      assert order[k] in order;
    }
  }

  /** The order holds the vehicles whose identifier is among `ids`, sorted,
      with distinct identifiers; vehicles arriving at the same time keep
      their scenario order. */
  lemma OrderOfConflicting(vehicles: seq<Vehicle>, ids: set<string>)
    requires DistinctIds(vehicles)
    ensures var order := SortByTime(Select(vehicles, ids, true));
      && (forall v :: v in order <==> v in vehicles && v.id in ids)
      && SortedByTime(order) && DistinctIds(order)
      && (forall time :: WithTime(order, time) == Select(WithTime(vehicles, time), ids, true))
  {
    SelectSpec(vehicles, ids, true);
    SortByTimeSpec(Select(vehicles, ids, true));
    SortKeepsDistinct(Select(vehicles, ids, true));
    forall time ensures WithTime(SortByTime(Select(vehicles, ids, true)), time) == Select(WithTime(vehicles, time), ids, true) {
      SortStable(Select(vehicles, ids, true), time);
      SelectWithTime(vehicles, ids, true, time);
    }
  }

  /** The conflicting vehicles and the others split the identifiers of all
      vehicles between them. */
  lemma SplitIds(vehicles: seq<Vehicle>, ids: set<string>)
    ensures var order, bystanders := SortByTime(Select(vehicles, ids, true)), Select(vehicles, ids, false);
      && IdSet(order) + IdSet(bystanders) == IdSet(vehicles)
      && (forall v :: v in bystanders ==> v.id !in IdSet(order))
  {
    var inside, bystanders := Select(vehicles, ids, true), Select(vehicles, ids, false);
    SelectSpec(vehicles, ids, true);
    SelectSpec(vehicles, ids, false);
    forall v ensures v in SortByTime(inside) <==> v in inside {
      SortMember(inside, v);
    }
  }

  /** The loop over the vehicles outside every conflict: no rank and no
      wait for each of them, and the schedule of the others as it was. */
  method MarkBystanders(order: seq<Vehicle>, bystanders: seq<Vehicle>,
                        priority0: map<string, Option<int>>, waiting0: map<string, int>)
    returns (priority: map<string, Option<int>>, waiting: map<string, int>)
    requires SortedByTime(order) && RanksAndWaits(order, priority0, waiting0)
    requires priority0.Keys == IdSet(order) == waiting0.Keys
    requires forall v :: v in bystanders ==> v.id !in IdSet(order)
    ensures priority.Keys == IdSet(order) + IdSet(bystanders) == waiting.Keys
    ensures RanksAndWaits(order, priority, waiting)
    ensures forall v :: v in bystanders ==> priority[v.id] == None && waiting[v.id] == 0
  {
    priority, waiting := priority0, waiting0;
    for idx := 0 to |bystanders|
      invariant priority.Keys == IdSet(order) + IdSet(bystanders[..idx]) == waiting.Keys
      invariant RanksAndWaits(order, priority, waiting)
      invariant forall m :: 0 <= m < idx ==> priority[bystanders[m].id] == None && waiting[bystanders[m].id] == 0
    {
      var vehicle := bystanders[idx];
      assert bystanders[..idx + 1] == bystanders[..idx] + [vehicle];
      RanksAndWaitsFrame(order, priority, waiting, vehicle.id);
      priority := priority[vehicle.id := None];
      waiting := waiting[vehicle.id := 0];
    }
    assert bystanders[..|bystanders|] == bystanders;
    forall v | v in bystanders ensures priority[v.id] == None && waiting[v.id] == 0 {
      var m :| 0 <= m < |bystanders| && bystanders[m] == v;
    }
  }

  /** The ranks and waiting times of the generator: vehicles taking part in
      a conflict are ranked 1, 2, ... by arrival time, ties in input order,
      and wait as the schedule says; every other vehicle gets no rank and no
      wait. */
  method Schedule(vehicles: seq<Vehicle>, ids: set<string>)
    returns (priority: map<string, Option<int>>, waiting: map<string, int>)
    requires DistinctIds(vehicles)
    ensures priority.Keys == IdSet(vehicles) == waiting.Keys
    ensures var order := SortByTime(Select(vehicles, ids, true));
      && (forall v :: v in order <==> v in vehicles && v.id in ids)
      && SortedByTime(order)
      && RanksAndWaits(order, priority, waiting)
    ensures forall v :: v in vehicles && v.id !in ids ==> priority[v.id] == None && waiting[v.id] == 0
  {
    var conflicting := Select(vehicles, ids, true);
    var order := SortByTime(conflicting);
    OrderOfConflicting(vehicles, ids);
    priority, waiting := map[], map[];
    if conflicting != [] {
      priority := Ranks(order);
      waiting := Waits(order);
    } else {
      assert order == [];
    }
    var bystanders := Select(vehicles, ids, false);
    SplitIds(vehicles, ids);
    priority, waiting := MarkBystanders(order, bystanders, priority, waiting);
    SelectSpec(vehicles, ids, false);
  }

  // ----- one scenario -----

  /** The order in which the generator schedules the vehicles of a scenario. */
  function ScheduleOrder(vehicles: seq<Vehicle>): seq<Vehicle> {
    SortByTime(Select(vehicles, ConflictIds(Conflicts(vehicles)), true))
  }

  /** The fields of one dataset record, the scenario text aside. */
  datatype Record = Record(summary: Summary, priority: map<string, Option<int>>, waiting: map<string, int>)

  /** Under the schedule of the generator, a vehicle is ranked exactly when
      it takes part in a conflict, and then it arrives in finite time. */
  lemma RankedIffInvolved(vehicles: seq<Vehicle>, priority: map<string, Option<int>>, waiting: map<string, int>, v: Vehicle)
    requires DistinctIds(vehicles) && v in vehicles
    requires priority.Keys == IdSet(vehicles)
    requires SortedByTime(ScheduleOrder(vehicles))
    requires RanksAndWaits(ScheduleOrder(vehicles), priority, waiting)
    requires forall u :: u in vehicles && u.id !in ConflictIds(Conflicts(vehicles)) ==> priority[u.id] == None
    ensures priority[v.id].Some? <==> Involved(vehicles, v.id)
    ensures priority[v.id].Some? ==> v.time.Finite?
  {
    var ids := ConflictIds(Conflicts(vehicles));
    var inside := Select(vehicles, ids, true);
    var order := SortByTime(inside);
    ConflictIdsOfDetection(vehicles, v.id);
    if v.id in ids {
      SelectSpec(vehicles, ids, true);
      SortMember(inside, v);
      var k :| 0 <= k < |order| && order[k] == v;
      assert priority[order[k].id] == Some(k + 1);
      ConflictParticipantsFinite(vehicles, v);
    }
  }

  /** One pass of the generator's loop over parsed vehicles: conflicts are
      flagged exactly when two vehicles are in conflict, every vehicle is
      given a rank exactly when it takes part in a conflict, such a vehicle
      always arrives in finite time, and the ranked vehicles follow the
      first-come-first-served schedule. */
  method AnalyzeScenario(vehicles: seq<Vehicle>) returns (rec: Record)
    requires DistinctIds(vehicles)
    ensures rec.summary.isConflict == (if SomeConflict(vehicles) then "yes" else "no")
    ensures rec.summary.count == |Conflicts(vehicles)|
    ensures |rec.summary.places| == |rec.summary.pairs| == |rec.summary.decisions| == |Conflicts(vehicles)|
    ensures forall k :: 0 <= k < |Conflicts(vehicles)| ==>
      && rec.summary.places[k] == Place
      && rec.summary.pairs[k] == Pair(Conflicts(vehicles)[k].vehicle1Id, Conflicts(vehicles)[k].vehicle2Id)
      && rec.summary.decisions[k] == Conflicts(vehicles)[k].decision
    ensures rec.priority.Keys == IdSet(vehicles) == rec.waiting.Keys
    ensures forall v :: v in vehicles ==>
      && (rec.priority[v.id].Some? <==> Involved(vehicles, v.id))
      && (rec.priority[v.id].Some? ==> v.time.Finite?)
      && (rec.priority[v.id].None? ==> rec.waiting[v.id] == 0)
    ensures SortedByTime(ScheduleOrder(vehicles))
    ensures RanksAndWaits(ScheduleOrder(vehicles), rec.priority, rec.waiting)
  {
    var conflicts := DetectConflicts(vehicles);
    var summary := Summarize(conflicts);
    var priority, waiting := Schedule(vehicles, summary.ids);
    rec := Record(summary, priority, waiting);
    NoConflictIff(vehicles);
    forall v | v in vehicles
      ensures && (priority[v.id].Some? <==> Involved(vehicles, v.id))
              && (priority[v.id].Some? ==> v.time.Finite?)
    {
      RankedIffInvolved(vehicles, priority, waiting, v);
    }
  }
}
