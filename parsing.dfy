/** `parse_vehicles`: one vehicle per scenario entry, in order, rejecting a
    repeated identifier before that entry's own fields are validated. */
module Parsing {
  import opened Wrappers
  import opened Vehicles

  /** A warning raised while constructing the vehicle with identifier `id`. */
  datatype Warning = Warning(id: string, kind: RouteWarning)

  datatype ParseOutcome = ParseOutcome(result: Result<seq<Vehicle>, ValidationError>, warnings: seq<Warning>)

  function WarningOf(b: Built): seq<Warning> {
    if b.warning.Some? then [Warning(b.vehicle.id, b.warning.value)] else []
  }

  /** What the loop has produced after the given entries: the vehicles built
      so far, or the error that stopped it, and the warnings raised before it
      stopped. */
  function Parse(entries: seq<Observation>, layout: Layout): ParseOutcome
    decreases |entries|
  {
    if entries == [] then ParseOutcome(Success([]), [])
    else
      var prev := Parse(entries[..|entries| - 1], layout);
      var e := entries[|entries| - 1];
      if prev.result.Failure? then prev
      else if e.id in IdSet(prev.result.value) then ParseOutcome(Failure(DuplicateId(e.id)), prev.warnings)
      else match NewVehicle(e, layout)
        case Failure(err) => ParseOutcome(Failure(err), prev.warnings)
        case Success(b) => ParseOutcome(Success(prev.result.value + [b.vehicle]), prev.warnings + WarningOf(b))
  }

  /** One more entry extends the outcome the way one iteration of the loop does. */
  lemma ParseStep(entries: seq<Observation>, layout: Layout, i: nat)
    requires i < |entries|
    ensures var prev := Parse(entries[..i], layout);
      var e := entries[i];
      Parse(entries[..i + 1], layout) ==
        if prev.result.Failure? then prev
        else if e.id in IdSet(prev.result.value) then ParseOutcome(Failure(DuplicateId(e.id)), prev.warnings)
        else match NewVehicle(e, layout)
          case Failure(err) => ParseOutcome(Failure(err), prev.warnings)
          case Success(b) => ParseOutcome(Success(prev.result.value + [b.vehicle]), prev.warnings + WarningOf(b))
  {
    assert entries[..i + 1][..i] == entries[..i];
  }

  /** Once an entry has failed, later entries change nothing: the error is
      raised at the first offending entry. */
  lemma {:induction false} FailureIsFinal(entries: seq<Observation>, layout: Layout, k: nat)
    requires k <= |entries|
    requires Parse(entries[..k], layout).result.Failure?
    ensures Parse(entries, layout) == Parse(entries[..k], layout)
    decreases |entries| - k
  {
    if k < |entries| {
      ParseStep(entries, layout, k);
      FailureIsFinal(entries, layout, k + 1);
    } else {
      assert entries[..k] == entries;
    }
  }

  method ParseVehicles(entries: seq<Observation>, layout: Layout)
    returns (r: Result<seq<Vehicle>, ValidationError>, warnings: seq<Warning>)
    ensures ParseOutcome(r, warnings) == Parse(entries, layout)
  {
    var vehicles: seq<Vehicle> := [];
    var ids: set<string> := {};
    warnings := [];
    var i := 0;
    while i < |entries|
      invariant 0 <= i <= |entries|
      invariant Parse(entries[..i], layout) == ParseOutcome(Success(vehicles), warnings)
      invariant ids == IdSet(vehicles)
    {
      var e := entries[i];
      ParseStep(entries, layout, i);
      if e.id in ids {
        FailureIsFinal(entries, layout, i + 1);
        return Failure(DuplicateId(e.id)), warnings;
      }
      ids := ids + {e.id};
      var built := NewVehicle(e, layout);
      if built.Failure? {
        FailureIsFinal(entries, layout, i + 1);
        return Failure(built.error), warnings;
      }
      assert IdSet(vehicles + [built.value.vehicle]) == ids;
      vehicles := vehicles + [built.value.vehicle];
      warnings := warnings + WarningOf(built.value);
      i := i + 1;
    }
    assert entries[..i] == entries;
    r := Success(vehicles);
  }

  /** On success the outcome before the last entry succeeded too, and the
      last entry added one vehicle. */
  lemma SuccessOfLast(entries: seq<Observation>, layout: Layout)
    requires entries != [] && Parse(entries, layout).result.Success?
    ensures var init := entries[..|entries| - 1];
      var e := entries[|entries| - 1];
      && Parse(init, layout).result.Success?
      && e.id !in IdSet(Parse(init, layout).result.value)
      && NewVehicle(e, layout).Success?
      && Parse(entries, layout).result.value == Parse(init, layout).result.value + [NewVehicle(e, layout).value.vehicle]
  {
  }

  lemma {:induction false} ParseLength(entries: seq<Observation>, layout: Layout)
    requires Parse(entries, layout).result.Success?
    ensures |Parse(entries, layout).result.value| == |entries|
  {
    if entries != [] {
      SuccessOfLast(entries, layout);
      ParseLength(entries[..|entries| - 1], layout);
    }
  }

  lemma {:induction false} ParseBuilt(entries: seq<Observation>, layout: Layout, k: nat)
    requires Parse(entries, layout).result.Success? && k < |entries|
    ensures |Parse(entries, layout).result.value| == |entries|
    ensures NewVehicle(entries[k], layout).Success?
    ensures Parse(entries, layout).result.value[k] == NewVehicle(entries[k], layout).value.vehicle
  {
    var n := |entries| - 1;
    var init := entries[..n];
    SuccessOfLast(entries, layout);
    ParseLength(entries, layout);
    ParseLength(init, layout);
    if k < n {
      ParseBuilt(init, layout, k);
      assert entries[k] == init[k];
    }
  }

  lemma {:induction false} ParseDistinct(entries: seq<Observation>, layout: Layout)
    requires Parse(entries, layout).result.Success?
    ensures DistinctIds(Parse(entries, layout).result.value)
  {
    if entries != [] {
      var n := |entries| - 1;
      var init := entries[..n];
      SuccessOfLast(entries, layout);
      ParseDistinct(init, layout);
      NewVehicleContract(entries[n], layout);
      DistinctAppend(Parse(init, layout).result.value, NewVehicle(entries[n], layout).value.vehicle);
    }
  }

  /** On success there is exactly one vehicle per entry, built from that
      entry, in input order, and no identifier repeats. */
  lemma ParseSuccessShape(entries: seq<Observation>, layout: Layout)
    requires Parse(entries, layout).result.Success?
    ensures var vs := Parse(entries, layout).result.value;
      && |vs| == |entries|
      && (forall k :: 0 <= k < |entries| ==>
            NewVehicle(entries[k], layout).Success? && vs[k] == NewVehicle(entries[k], layout).value.vehicle)
      && DistinctIds(vs)
  {
    ParseLength(entries, layout);
    forall k | 0 <= k < |entries|
      ensures NewVehicle(entries[k], layout).Success?
      ensures Parse(entries, layout).result.value[k] == NewVehicle(entries[k], layout).value.vehicle
    {
      ParseBuilt(entries, layout, k);
    }
    ParseDistinct(entries, layout);
  }

  predicate AllValid(entries: seq<Observation>, layout: Layout) {
    forall k :: 0 <= k < |entries| ==> NewVehicle(entries[k], layout).Success?
  }

  predicate UniqueIds(entries: seq<Observation>) {
    forall i, j :: 0 <= i < j < |entries| ==> entries[i].id != entries[j].id
  }

  /** Vehicles carrying the entries' identifiers, position by position,
      have the entries' identifiers as their identifier set. */
  lemma IdSetMatches(vs: seq<Vehicle>, entries: seq<Observation>)
    requires |vs| == |entries|
    requires forall k :: 0 <= k < |vs| ==> vs[k].id == entries[k].id
    ensures IdSet(vs) == set k | 0 <= k < |entries| :: entries[k].id
  {
    forall x | x in IdSet(vs) ensures x in set k | 0 <= k < |entries| :: entries[k].id {
      var k :| 0 <= k < |vs| && vs[k].id == x;
    }
    forall k | 0 <= k < |entries| ensures entries[k].id in IdSet(vs) {
      assert vs[k] in vs;
    }
  }

  /** The identifiers of the vehicles built so far are those of the entries read. */
  lemma IdsOfParsed(entries: seq<Observation>, layout: Layout)
    requires Parse(entries, layout).result.Success?
    ensures IdSet(Parse(entries, layout).result.value) == set k | 0 <= k < |entries| :: entries[k].id
  {
    ParseSuccessShape(entries, layout);
    var vs := Parse(entries, layout).result.value;
    forall k | 0 <= k < |vs| ensures vs[k].id == entries[k].id {
      NewVehicleContract(entries[k], layout);
    }
    IdSetMatches(vs, entries);
  }

  lemma StepSucceeds(entries: seq<Observation>, layout: Layout, i: nat)
    requires i < |entries|
    ensures Parse(entries[..i + 1], layout).result.Success? <==>
      && Parse(entries[..i], layout).result.Success?
      && entries[i].id !in IdSet(Parse(entries[..i], layout).result.value)
      && NewVehicle(entries[i], layout).Success?
  {
    ParseStep(entries, layout, i);
  }

  lemma AllValidLast(entries: seq<Observation>, layout: Layout)
    requires |entries| > 0
    ensures AllValid(entries, layout) <==>
      AllValid(entries[..|entries| - 1], layout) && NewVehicle(entries[|entries| - 1], layout).Success?
  {
    var n := |entries| - 1;
    assert forall k :: 0 <= k < n ==> entries[k] == entries[..n][k];
  }

  /** When the entries before the last one parse, the identifiers stay
      unique exactly when the last one is new. */
  lemma UniqueIdsLast(entries: seq<Observation>, layout: Layout)
    requires |entries| > 0
    requires Parse(entries[..|entries| - 1], layout).result.Success?
    ensures UniqueIds(entries) <==>
      UniqueIds(entries[..|entries| - 1])
      && entries[|entries| - 1].id !in IdSet(Parse(entries[..|entries| - 1], layout).result.value)
  {
    var n := |entries| - 1;
    var init := entries[..n];
    IdsOfParsed(init, layout);
    assert forall k :: 0 <= k < n ==> entries[k] == init[k];
    if UniqueIds(entries) {
      assert forall k :: 0 <= k < n ==> entries[k].id != entries[n].id;
    }
  }

  /** Parsing succeeds exactly when every entry is valid on its own and no
      identifier occurs twice. */
  lemma {:induction false} ParseSucceedsIff(entries: seq<Observation>, layout: Layout)
    ensures Parse(entries, layout).result.Success? <==> AllValid(entries, layout) && UniqueIds(entries)
  {
    if entries != [] {
      var n := |entries| - 1;
      var init := entries[..n];
      ParseSucceedsIff(init, layout);
      StepSucceeds(entries, layout, n);
      assert entries[..n + 1] == entries;
      if Parse(init, layout).result.Success? {
        AllValidLast(entries, layout);
        UniqueIdsLast(entries, layout);
      } else if !AllValid(init, layout) {
        var k :| 0 <= k < n && !NewVehicle(init[k], layout).Success?;
        assert entries[k] == init[k];
      } else {
        var a, b :| 0 <= a < b < n && init[a].id == init[b].id;
        assert entries[a] == init[a] && entries[b] == init[b];
      }
    }
  }

  /** A repeated identifier is reported as such even when the repeating
      entry's own fields are invalid: the check comes first. */
  lemma DuplicateReportedFirst(entries: seq<Observation>, layout: Layout, i: nat, j: nat)
    requires i < j < |entries| && entries[i].id == entries[j].id
    requires Parse(entries[..j], layout).result.Success?
    ensures Parse(entries[..j + 1], layout).result == Failure(DuplicateId(entries[j].id))
  {
    var init := entries[..j];
    ParseSuccessShape(init, layout);
    var prev := Parse(init, layout).result.value;
    assert entries[..j + 1][..j] == init;
    assert prev[i].id == entries[i].id;
    assert prev[i] in prev;
  }
}
