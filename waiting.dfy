/** `compute_waiting_times`: for every ranked vehicle, how long it must wait
    for the vehicles ranked ahead of it to clear the intersection. */
module Waiting {
  import opened Wrappers
  import opened Vehicles

  /** Seconds a vehicle needs to clear the intersection. */
  const TraversalTime: real := 2.0

  /** `math.ceil` of an infinite wait raises OverflowError. */
  datatype WaitError = Overflow

  /** `next((v for v in vehicles if v.vehicle_id == id), None)`: the first
      vehicle with that identifier. */
  function Find(vs: seq<Vehicle>, id: string): (r: Option<Vehicle>)
    ensures r.Some? ==> r.value in vs && r.value.id == id
    ensures r.None? <==> forall k :: 0 <= k < |vs| ==> vs[k].id != id
  {
    if vs == [] then None
    else if vs[0].id == id then Some(vs[0])
    else Find(vs[1..], id)
  }

  /** The vehicle found is the first with that identifier: it sits at a
      position `k` and no earlier vehicle carries the identifier. */
  lemma {:induction false} FindFirst(vs: seq<Vehicle>, id: string) returns (k: nat)
    requires Find(vs, id).Some?
    ensures k < |vs| && vs[k] == Find(vs, id).value
    ensures forall m :: 0 <= m < k ==> vs[m].id != id
  {
    if vs[0].id == id {
      k := 0;
    } else {
      var k' := FindFirst(vs[1..], id);
      k := k' + 1;
      assert vs[k] == vs[1..][k'];
      forall m | 0 <= m < k ensures vs[m].id != id {
        if m > 0 {
          assert vs[m] == vs[1..][m - 1];
        }
      }
    }
  }

  /** Among vehicles with distinct identifiers, looking a vehicle up by its
      identifier finds that vehicle. */
  lemma {:induction false} FindDistinct(vs: seq<Vehicle>, k: nat)
    requires DistinctIds(vs) && k < |vs|
    ensures Find(vs, vs[k].id) == Some(vs[k])
  {
    if k > 0 {
      assert vs[0].id != vs[k].id;
      assert DistinctIds(vs[1..]) by {
        forall i, j | 0 <= i < j < |vs| - 1 ensures vs[1..][i].id != vs[1..][j].id {
          assert vs[1..][i] == vs[i + 1] && vs[1..][j] == vs[j + 1];
        }
      }
      FindDistinct(vs[1..], k - 1);
    }
  }

  /** The unrounded wait of a vehicle arriving at `own` behind one arriving
      at `ahead`: `max(0, (ahead + traversal) - own)` in float arithmetic.
      It is infinite when only the vehicle ahead never arrives, and zero when
      this vehicle never arrives (the difference is then minus infinity or
      not a number, and `max` keeps the 0). */
  function ClearanceWait(ahead: Time, own: Time): Time {
    match (ahead, own)
    case (Finite(a), Finite(t)) => Finite(Max(0.0, a + TraversalTime - t))
    case (Inf, Finite(_)) => Inf
    case (_, Inf) => Finite(0.0)
  }

  /** `max` of two float times. */
  function MaxTime(a: Time, b: Time): Time {
    match (a, b)
    case (Finite(x), Finite(y)) => Finite(Max(x, y))
    case _ => Inf
  }

  /** Vehicle `h` ranks ahead of vehicle `id`, which is not ranked first, and
      both are among the vehicles. */
  predicate Behind(vs: seq<Vehicle>, pr: map<string, int>, id: string, h: string) {
    && id in pr && h in pr && pr[id] != 1 && pr[h] < pr[id]
    && Find(vs, id).Some? && Find(vs, h).Some?
  }

  function Delay(vs: seq<Vehicle>, pr: map<string, int>, id: string, h: string): Time
    requires Behind(vs, pr, id, h)
  {
    ClearanceWait(Find(vs, h).value.time, Find(vs, id).value.time)
  }

  /** Waiting behind `h` would have to be rounded up from infinity. */
  predicate Overflows(vs: seq<Vehicle>, pr: map<string, int>, id: string, h: string) {
    Behind(vs, pr, id, h) && Delay(vs, pr, id, h).Inf?
  }

  /** `w` is the waiting time of `id`: zero at rank 1, otherwise the largest
      rounded-up clearance wait behind a vehicle ranked ahead, or zero when
      there is none. */
  ghost predicate IsWaitingTime(vs: seq<Vehicle>, pr: map<string, int>, id: string, w: int)
    requires id in pr
  {
    if pr[id] == 1 then w == 0
    else
      && w >= 0
      && (forall h :: Behind(vs, pr, id, h) && Delay(vs, pr, id, h).Finite? ==>
            Ceil(Delay(vs, pr, id, h).seconds) <= w)
      && (w == 0 || exists h :: Behind(vs, pr, id, h) && Delay(vs, pr, id, h).Finite? &&
                                Ceil(Delay(vs, pr, id, h).seconds) == w)
  }

  /** What the inner loop knows once it has looked at the vehicles `seen`:
      `largest` is infinite exactly when one of them overflows, and
      otherwise is the largest of their clearance waits, or zero. */
  predicate LargestSoFar(vs: seq<Vehicle>, pr: map<string, int>, id: string, seen: set<string>, largest: Time) {
    && (largest.Finite? ==> largest.seconds >= 0.0)
    && (largest.Inf? <==> exists h :: h in seen && Overflows(vs, pr, id, h))
    && (largest.Finite? ==> forall h :: h in seen && Behind(vs, pr, id, h) ==>
          Delay(vs, pr, id, h).Finite? && Delay(vs, pr, id, h).seconds <= largest.seconds)
    && (largest.Finite? && largest.seconds != 0.0 ==>
          exists h :: h in seen && Behind(vs, pr, id, h) && Delay(vs, pr, id, h) == largest)
  }

  /** Looking at one more vehicle ranked ahead keeps `LargestSoFar`. */
  lemma LargestStep(vs: seq<Vehicle>, pr: map<string, int>, id: string, seen: set<string>, largest: Time, h: string)
    requires id in pr && pr[id] != 1 && Find(vs, id).Some?
    requires h in pr && pr[h] < pr[id]
    requires LargestSoFar(vs, pr, id, seen, largest)
    ensures var next :=
        if Find(vs, h).Some? then MaxTime(largest, ClearanceWait(Find(vs, h).value.time, Find(vs, id).value.time))
        else largest;
      LargestSoFar(vs, pr, id, seen + {h}, next)
  {
    if Find(vs, h).Some? {
      assert Behind(vs, pr, id, h);
    } else {
      assert !Overflows(vs, pr, id, h);
    }
  }

  /** Rounding up the largest finite clearance wait behind the vehicles
      ranked ahead gives the waiting time. */
  lemma WaitOfLargest(vs: seq<Vehicle>, pr: map<string, int>, id: string, largest: real)
    requires id in pr && pr[id] != 1 && largest >= 0.0
    requires forall h :: Behind(vs, pr, id, h) ==> Delay(vs, pr, id, h).Finite? && Delay(vs, pr, id, h).seconds <= largest
    requires largest != 0.0 ==> exists h :: Behind(vs, pr, id, h) && Delay(vs, pr, id, h) == Finite(largest)
    ensures IsWaitingTime(vs, pr, id, Ceil(largest))
  {
    forall h | Behind(vs, pr, id, h) && Delay(vs, pr, id, h).Finite?
      ensures Ceil(Delay(vs, pr, id, h).seconds) <= Ceil(largest)
    {
      CeilMonotone(Delay(vs, pr, id, h).seconds, largest);
    }
  }

  /** The inner loop of `compute_waiting_times` for the vehicle `id`: the
      largest clearance wait behind the vehicles ranked ahead of it, which is
      infinite exactly when one of them overflows; rounded up, it is the
      vehicle's waiting time. */
  method LargestWait(vehicles: seq<Vehicle>, priorities: map<string, int>, id: string) returns (maxWait: Time)
    requires id in priorities && priorities[id] != 1 && Find(vehicles, id).Some?
    ensures maxWait.Inf? <==> exists h :: Overflows(vehicles, priorities, id, h)
    ensures maxWait.Finite? ==> maxWait.seconds >= 0.0 && IsWaitingTime(vehicles, priorities, id, Ceil(maxWait.seconds))
  {
    var vehicle := Find(vehicles, id).value;
    var priority := priorities[id];
    var higher := set h | h in priorities && priorities[h] < priority;
    maxWait := Finite(0.0);
    var rest := higher;
    while rest != {}
      invariant rest <= higher
      invariant LargestSoFar(vehicles, priorities, id, higher - rest, maxWait)
      decreases rest
    {
      var h :| h in rest;
      LargestStep(vehicles, priorities, id, higher - rest, maxWait, h);
      assert higher - (rest - {h}) == (higher - rest) + {h};
      rest := rest - {h};
      var ahead := Find(vehicles, h);
      if ahead.Some? {
        var wait := ClearanceWait(ahead.value.time, vehicle.time);
        maxWait := MaxTime(maxWait, wait);
      }
    }
    assert forall h :: Behind(vehicles, priorities, id, h) ==> h in higher;
    if maxWait.Finite? {
      WaitOfLargest(vehicles, priorities, id, maxWait.seconds);
    }
  }

  /** The waiting time of every ranked vehicle that is among `vehicles`, or
      Overflow when some wait is infinite. */
  method ComputeWaitingTimes(vehicles: seq<Vehicle>, priorities: map<string, int>)
    returns (r: Result<map<string, int>, WaitError>)
    ensures r.Failure? <==> exists id, h :: Overflows(vehicles, priorities, id, h)
    ensures r.Success? ==> r.value.Keys == set id | id in priorities && Find(vehicles, id).Some?
    ensures r.Success? ==> forall id :: id in r.value ==> IsWaitingTime(vehicles, priorities, id, r.value[id])
  {
    var waits: map<string, int> := map[];
    var todo := priorities.Keys;
    while todo != {}
      invariant todo <= priorities.Keys
      invariant waits.Keys == set id | id in priorities.Keys - todo && Find(vehicles, id).Some?
      invariant forall id :: id in waits ==> IsWaitingTime(vehicles, priorities, id, waits[id])
      invariant forall id, h :: id in priorities.Keys - todo ==> !Overflows(vehicles, priorities, id, h)
      decreases todo
    {
      var id :| id in todo;
      todo := todo - {id};
      var vehicle := Find(vehicles, id);
      if vehicle.None? {
        continue;
      }
      var priority := priorities[id];
      if priority == 1 {
        waits := waits[id := 0];
      } else {
        var maxWait := LargestWait(vehicles, priorities, id);
        if maxWait.Inf? {
          return Failure(Overflow);
        }
        var w := Ceil(maxWait.seconds);
        waits := waits[id := w];
      }
    }
    r := Success(waits);
  }
}
