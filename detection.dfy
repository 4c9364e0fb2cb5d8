/** `detect_conflicts`: every pair of vehicles, in input order, whose paths
    cross and whose arrivals are close yields one conflict record. */
module Detection {
  import opened Wrappers
  import opened Vehicles
  import opened Rules
  import opened Waiting
  import opened Pairs

  /** Every conflict is placed at the intersection. */
  const Place: string := "intersection"

  datatype Conflict = Conflict(
    vehicle1Id: string, vehicle2Id: string, decision: string, place: string,
    priorityOrder: map<string, int>, waitingTimes: map<string, int>)

  /** A pair is reported when the paths cross and the arrivals are within
      the default threshold of each other. */
  predicate InConflict(v1: Vehicle, v2: Vehicle) {
    PathsCross(v1, v2) && ArrivalTimeClose(v1, v2, DefaultThreshold)
  }

  /** Some pair of the scenario, in scenario order, is in conflict. */
  predicate SomeConflict(vs: seq<Vehicle>) {
    exists a, b :: 0 <= a < b < |vs| && InConflict(vs[a], vs[b])
  }

  /** A reported pair is two different vehicles with known movements that
      both arrive. */
  lemma InConflictFacts(v1: Vehicle, v2: Vehicle)
    requires InConflict(v1, v2)
    ensures v1.id != v2.id && v1.move != Unknown && v2.move != Unknown
    ensures v1.time.Finite? && v2.time.Finite?
  {
  }

  /** The waiting times of a pair: the vehicle ranked first waits nothing,
      the other waits, rounded up, until the first has cleared. */
  function PairWaits(winner: Vehicle, loser: Vehicle): map<string, int>
    requires winner.time.Finite? && loser.time.Finite?
  {
    map[winner.id := 0,
        loser.id := Ceil(Max(0.0, winner.time.seconds + TraversalTime - loser.time.seconds))]
  }

  /** The record the source appends for a reported pair. */
  function ConflictOf(v1: Vehicle, v2: Vehicle): Conflict
    requires InConflict(v1, v2)
  {
    var verdict := ApplyPriorityRules(v1, v2);
    var waits := if verdict.priority[v1.id] == 1 then PairWaits(v1, v2) else PairWaits(v2, v1);
    Conflict(v1.id, v2.id, verdict.decision, Place, verdict.priority, waits)
  }

  function Emit(v1: Vehicle, v2: Vehicle): seq<Conflict> {
    if InConflict(v1, v2) then [ConflictOf(v1, v2)] else []
  }

  /** What the pair at positions `a` and `b` contributes. */
  function EmitAt(vs: seq<Vehicle>): (nat, nat) -> seq<Conflict> {
    (a: nat, b: nat) => if a < |vs| && b < |vs| then Emit(vs[a], vs[b]) else []
  }

  /** The records of `detect_conflicts`, pair by pair in loop order. */
  function Conflicts(vs: seq<Vehicle>): seq<Conflict> {
    RowsOf(|vs|, |vs|, EmitAt(vs))
  }

  /** Two vehicles with finite times never overflow a wait. */
  lemma NoOverflowForFinite(v1: Vehicle, v2: Vehicle, pr: map<string, int>)
    requires v1.time.Finite? && v2.time.Finite?
    ensures forall id, h :: !Overflows([v1, v2], pr, id, h)
  {
    forall id, h ensures !Overflows([v1, v2], pr, id, h) {
      if Behind([v1, v2], pr, id, h) {
        var a := Find([v1, v2], h).value;
        assert a == v1 || a == v2;
      }
    }
  }

  /** Looking up either vehicle of a pair finds it, and nothing else is found. */
  lemma FindInPair(v1: Vehicle, v2: Vehicle)
    requires v1.id != v2.id
    ensures Find([v1, v2], v1.id) == Some(v1) && Find([v1, v2], v2.id) == Some(v2)
    ensures forall id :: Find([v1, v2], id).Some? ==> id == v1.id || id == v2.id
  {
  }

  /** The waits of a pair have exactly the two identifiers as keys. */
  lemma PairKeys(vs: seq<Vehicle>, winner: Vehicle, loser: Vehicle, pr: map<string, int>, keys: set<string>)
    requires Find(vs, winner.id).Some? && Find(vs, loser.id).Some?
    requires pr.Keys == {winner.id, loser.id}
    requires keys == set id | id in pr && Find(vs, id).Some?
    ensures keys == {winner.id, loser.id}
  {
  }

  /** Ranked first, a vehicle waits zero; ranked second, its rounded
      clearance wait: the two waits of a pair are determined. */
  lemma PairWaitsDetermined(
    vs: seq<Vehicle>, winner: Vehicle, loser: Vehicle, pr: map<string, int>, waits: map<string, int>)
    requires Find(vs, winner.id) == Some(winner) && Find(vs, loser.id) == Some(loser)
    requires winner.id != loser.id && winner.time.Finite? && loser.time.Finite?
    requires pr == map[winner.id := 1, loser.id := 2]
    requires waits.Keys == {winner.id, loser.id}
    requires IsWaitingTime(vs, pr, winner.id, waits[winner.id])
    requires IsWaitingTime(vs, pr, loser.id, waits[loser.id])
    ensures waits == PairWaits(winner, loser)
  {
    LoserWait(vs, winner, loser, pr, waits[loser.id]);
  }

  /** The vehicle ranked second waits exactly its rounded clearance wait. */
  lemma LoserWait(vs: seq<Vehicle>, winner: Vehicle, loser: Vehicle, pr: map<string, int>, w: int)
    requires Find(vs, winner.id) == Some(winner) && Find(vs, loser.id) == Some(loser)
    requires winner.id != loser.id && winner.time.Finite? && loser.time.Finite?
    requires pr == map[winner.id := 1, loser.id := 2]
    requires IsWaitingTime(vs, pr, loser.id, w)
    ensures w == Ceil(Max(0.0, winner.time.seconds + TraversalTime - loser.time.seconds))
  {
    assert Behind(vs, pr, loser.id, winner.id);
    var d := Delay(vs, pr, loser.id, winner.id);
    assert d == Finite(Max(0.0, winner.time.seconds + TraversalTime - loser.time.seconds));
    forall h | Behind(vs, pr, loser.id, h) ensures h == winner.id {
    }
  }

  /** For two vehicles ranked 1 and 2 that both arrive, the waiting times
      computed for them never overflow and are the pair's clearance waits. */
  lemma WaitsOfPair(v1: Vehicle, v2: Vehicle, pr: map<string, int>, waits: Result<map<string, int>, WaitError>)
    requires v1.id != v2.id && v1.time.Finite? && v2.time.Finite?
    requires pr == map[v1.id := 1, v2.id := 2] || pr == map[v2.id := 1, v1.id := 2]
    requires waits.Failure? <==> exists id, h :: Overflows([v1, v2], pr, id, h)
    requires waits.Success? ==> waits.value.Keys == set id | id in pr && Find([v1, v2], id).Some?
    requires waits.Success? ==> forall id :: id in waits.value ==> IsWaitingTime([v1, v2], pr, id, waits.value[id])
    ensures waits.Success?
    ensures waits.value == if pr[v1.id] == 1 then PairWaits(v1, v2) else PairWaits(v2, v1)
  {
    NoOverflowForFinite(v1, v2, pr);
    FindInPair(v1, v2);
    var w := waits.value;
    PairKeys([v1, v2], v1, v2, pr, w.Keys);
    assert IsWaitingTime([v1, v2], pr, v1.id, w[v1.id]);
    assert IsWaitingTime([v1, v2], pr, v2.id, w[v2.id]);
    if pr[v1.id] == 1 {
      PairWaitsDetermined([v1, v2], v1, v2, pr, w);
    } else {
      PairWaitsDetermined([v1, v2], v2, v1, pr, w);
    }
  }

  /** The record built from what `apply_priority_rules` and
      `compute_waiting_times` return for a reported pair is `ConflictOf`. */
  lemma RecordOfPair(v1: Vehicle, v2: Vehicle, waits: Result<map<string, int>, WaitError>)
    requires InConflict(v1, v2)
    requires var pr := ApplyPriorityRules(v1, v2).priority;
      && (waits.Failure? <==> exists id, h :: Overflows([v1, v2], pr, id, h))
      && (waits.Success? ==> waits.value.Keys == set id | id in pr && Find([v1, v2], id).Some?)
      && (waits.Success? ==> forall id :: id in waits.value ==> IsWaitingTime([v1, v2], pr, id, waits.value[id]))
    ensures waits.Success?
    ensures var verdict := ApplyPriorityRules(v1, v2);
      Conflict(v1.id, v2.id, verdict.decision, Place, verdict.priority, waits.value) == ConflictOf(v1, v2)
  {
    assert v1.id != v2.id && v1.time.Finite? && v2.time.Finite?;
    VerdictShape(v1, v2);
    WaitsOfPair(v1, v2, ApplyPriorityRules(v1, v2).priority, waits);
  }

  /** The body of the inner loop of `detect_conflicts`: the record of the
      pair when its paths cross and its arrivals are close, else nothing. */
  method CheckPair(vehicles: seq<Vehicle>, i: nat, j: nat) returns (found: seq<Conflict>)
    requires i < j < |vehicles|
    ensures found == EmitAt(vehicles)(i, j)
  {
    var vehicle1, vehicle2 := vehicles[i], vehicles[j];
    found := [];
    if PathsCross(vehicle1, vehicle2) {
      if ArrivalTimeClose(vehicle1, vehicle2, DefaultThreshold) {
        var verdict := ApplyPriorityRules(vehicle1, vehicle2);
        var waits := ComputeWaitingTimes([vehicle1, vehicle2], verdict.priority);
        RecordOfPair(vehicle1, vehicle2, waits);
        found := [Conflict(vehicle1.id, vehicle2.id, verdict.decision, Place, verdict.priority, waits.value)];
      }
    }
  }

  /** The inner loop of `detect_conflicts` for vehicle `i`: appends, partner
      by partner, the records of the pairs it forms with the vehicles after it. */
  method ScanPartners(vehicles: seq<Vehicle>, i: nat, before: seq<Conflict>) returns (conflicts: seq<Conflict>)
    requires i < |vehicles|
    ensures conflicts == before + RowOf(|vehicles|, i, |vehicles|, EmitAt(vehicles))
  {
    conflicts := before;
    var n := |vehicles|;
    for j := i + 1 to n
      invariant conflicts == before + RowOf(n, i, j, EmitAt(vehicles))
    {
      RowStep(n, i, j, EmitAt(vehicles));
      var found := CheckPair(vehicles, i, j);
      conflicts := conflicts + found;
    }
  }

  method DetectConflicts(vehicles: seq<Vehicle>) returns (conflicts: seq<Conflict>)
    ensures conflicts == Conflicts(vehicles)
  {
    conflicts := [];
    var n := |vehicles|;
    for i := 0 to n
      invariant conflicts == RowsOf(n, i, EmitAt(vehicles))
    {
      conflicts := ScanPartners(vehicles, i, conflicts);
    }
  }

  // ----- what the list of records means -----

  /** Every record comes from a reported pair (first vehicle earlier in the
      input), and every reported pair has its record. */
  lemma ConflictsExact(vs: seq<Vehicle>)
    ensures forall c :: c in Conflicts(vs) ==>
      exists a, b :: 0 <= a < b < |vs| && InConflict(vs[a], vs[b]) && c == ConflictOf(vs[a], vs[b])
    ensures forall a, b :: 0 <= a < b < |vs| && InConflict(vs[a], vs[b]) ==>
      ConflictOf(vs[a], vs[b]) in Conflicts(vs)
  {
    forall c | c in Conflicts(vs)
      ensures exists a, b :: 0 <= a < b < |vs| && InConflict(vs[a], vs[b]) && c == ConflictOf(vs[a], vs[b])
    {
      var a, b := RowsSource(|vs|, |vs|, EmitAt(vs), c);
      assert c in Emit(vs[a], vs[b]);
    }
    forall a, b | 0 <= a < b < |vs| && InConflict(vs[a], vs[b])
      ensures ConflictOf(vs[a], vs[b]) in Conflicts(vs)
    {
      assert ConflictOf(vs[a], vs[b]) in EmitAt(vs)(a, b);
      RowsHas(|vs|, |vs|, a, b, EmitAt(vs), ConflictOf(vs[a], vs[b]));
    }
  }

  /** No conflict is reported exactly when no pair is in conflict. */
  lemma NoConflictIff(vs: seq<Vehicle>)
    ensures Conflicts(vs) == [] <==> !SomeConflict(vs)
  {
    ConflictsExact(vs);
    if Conflicts(vs) != [] {
      assert Conflicts(vs)[0] in Conflicts(vs);
    }
  }

  /** At most one record per unordered pair. */
  lemma ConflictsBound(vs: seq<Vehicle>)
    ensures 2 * |Conflicts(vs)| <= |vs| * (|vs| - 1)
  {
    assert AtMostOne(|vs|, EmitAt(vs));
    RowsBound(|vs|, |vs|, EmitAt(vs));
  }

  /** A record names two different vehicles, ranks them 1 and 2, says who
      yields to whom, and gives the first no wait and the second the rounded
      clearance wait, which lies between 0 and 6 seconds because the two
      arrivals are at most 4 seconds apart; the second waits nothing exactly
      when it arrives at least 2 seconds after the first. */
  lemma ConflictRecordShape(v1: Vehicle, v2: Vehicle)
    requires InConflict(v1, v2)
    ensures var c := ConflictOf(v1, v2);
      && c.vehicle1Id == v1.id && c.vehicle2Id == v2.id && c.vehicle1Id != c.vehicle2Id
      && c.place == "intersection"
      && c.priorityOrder.Keys == {v1.id, v2.id} == c.waitingTimes.Keys
      && var (w, l) := if c.priorityOrder[v1.id] == 1 then (v1, v2) else (v2, v1);
         && c.priorityOrder[w.id] == 1 && c.priorityOrder[l.id] == 2
         && c.decision == YieldDecision(l.id, w.id)
         && c.waitingTimes[w.id] == 0
         && 0 <= c.waitingTimes[l.id] <= 6
         && (c.waitingTimes[l.id] == 0 <==> w.time.seconds + TraversalTime <= l.time.seconds)
  {
    var c := ConflictOf(v1, v2);
    var verdict := ApplyPriorityRules(v1, v2);
    var (w, l) := if verdict.priority[v1.id] == 1 then (v1, v2) else (v2, v1);
    var x := Max(0.0, w.time.seconds + TraversalTime - l.time.seconds);
    assert x <= 6.0;
    CeilMonotone(x, 6.0);
    assert c.waitingTimes[l.id] == Ceil(x);
  }
}
