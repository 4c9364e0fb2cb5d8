/** Vehicles approaching the intersection: validation of one observation,
    time to reach the intersection, and the manoeuvre the intersection
    layout implies for the vehicle's lane and destination. */
module Vehicles {
  import opened Wrappers

  /** Approach directions, in the cyclic order north, east, south, west. */
  datatype Dir = North | East | South | West

  datatype Move = Straight | Left | Right | Unknown

  /** A time in seconds. `Inf` is the float infinity a stopped vehicle gets. */
  datatype Time = Finite(seconds: real) | Inf

  /** Direction -> lane identifier -> ordered destinations reachable from that lane. */
  type Layout = map<Dir, map<string, seq<string>>>

  /** One raw entry of a scenario. The lane is the text `str(lane)` gives. */
  datatype Observation = Observation(
    id: string, lane: string, speed: real, distance: real,
    direction: string, destination: string)

  /** A validated vehicle: speed in km/h, distance in metres. */
  datatype Vehicle = Vehicle(
    id: string, lane: string, speed: real, distance: real,
    direction: Dir, destination: string, time: Time, move: Move)

  datatype ValidationError =
    | NegativeSpeed(id: string)
    | NegativeDistance(id: string)
    | InvalidDirection(id: string, direction: string)
    | EmptyId
    | DuplicateId(id: string)

  /** The three non-fatal warnings of movement classification. */
  datatype RouteWarning = UnknownLane | UnreachableDestination | UnknownMovement

  datatype Route = Route(move: Move, warning: Option<RouteWarning>)

  /** A constructed vehicle together with the warning its construction raised, if any. */
  datatype Built = Built(vehicle: Vehicle, warning: Option<RouteWarning>)

  // ----- numbers -----

  function Max(a: real, b: real): real {
    if a >= b then a else b
  }

  /** `math.ceil` on a finite value. */
  function Ceil(x: real): (r: int)
    ensures (r - 1) as real < x <= r as real
  {
    if x.Floor as real == x then x.Floor else x.Floor + 1
  }

  lemma CeilMonotone(x: real, y: real)
    requires x <= y
    ensures Ceil(x) <= Ceil(y)
  {
  }

  // ----- identifiers -----

  function IdSet(vs: seq<Vehicle>): set<string> {
    set v | v in vs :: v.id
  }

  predicate DistinctIds(vs: seq<Vehicle>) {
    forall i, j :: 0 <= i < j < |vs| ==> vs[i].id != vs[j].id
  }

  /** Appending keeps identifiers distinct exactly when the new one is fresh. */
  lemma DistinctAppend(s: seq<Vehicle>, x: Vehicle)
    ensures DistinctIds(s + [x]) <==> DistinctIds(s) && x.id !in IdSet(s)
  {
    var r := s + [x];
    if DistinctIds(r) {
      forall v | v in s ensures v.id != x.id {
        var k :| 0 <= k < |s| && s[k] == v;
        assert r[k] == v && r[|s|] == x;
      }
      forall i, j | 0 <= i < j < |s| ensures s[i].id != s[j].id {
        assert r[i] == s[i] && r[j] == s[j];
      }
    }
    if DistinctIds(s) && x.id !in IdSet(s) {
      forall i, j | 0 <= i < j < |r| ensures r[i].id != r[j].id {
        if j == |s| {
          assert r[i] in s;
        }
      }
    }
  }

  // ----- directions -----

  function DirName(d: Dir): string {
    match d
    case North => "north"
    case East => "east"
    case South => "south"
    case West => "west"
  }

  /** `str.lower` on the ASCII letters. */
  function LowerChar(c: char): char {
    if 'A' <= c <= 'Z' then (c as int + 32) as char else c
  }

  function Lower(s: string): string {
    seq(|s|, i requires 0 <= i < |s| => LowerChar(s[i]))
  }

  /** The direction a raw direction token names after lower-casing, if it names one. */
  function ParseDirection(s: string): Option<Dir> {
    var t := Lower(s);
    if t == "north" then Some(North)
    else if t == "east" then Some(East)
    else if t == "south" then Some(South)
    else if t == "west" then Some(West)
    else None
  }

  /** A token is accepted exactly when its lower-cased form is one of the
      four direction names, and it then stands for that direction. */
  lemma ParseDirectionSpec(s: string, d: Dir)
    ensures ParseDirection(s) == Some(d) <==> Lower(s) == DirName(d)
  {
  }

  // ----- time to intersection -----

  /** Seconds needed to cover `distance` metres at `speed` km/h; a speed of
      zero never arrives. */
  function TimeToIntersection(speed: real, distance: real): Time {
    var metresPerSecond := speed * 1000.0 / 3600.0;
    if metresPerSecond == 0.0 then Inf else Finite(distance / metresPerSecond)
  }

  /** The time is infinite exactly for a zero speed, and otherwise is
      distance * 3.6 / speed, which is not negative for valid inputs. */
  lemma TimeToIntersectionSpec(speed: real, distance: real)
    ensures TimeToIntersection(speed, distance).Inf? <==> speed == 0.0
    ensures speed != 0.0 ==> TimeToIntersection(speed, distance) == Finite(distance * 3.6 / speed)
    ensures speed > 0.0 && distance >= 0.0 ==> TimeToIntersection(speed, distance).seconds >= 0.0
  {
  }

  // ----- movement classification -----

  /** Lanes carrying right, straight and left traffic, told apart by the
      destination's position in the lane's list. */
  const SharedLanes: seq<string> := ["1", "3", "5", "7"]

  /** Lanes whose every destination is a left turn. */
  const LeftTurnLanes: seq<string> := ["2", "4", "6", "8"]

  /** `layout.get(direction, {}).get(lane, [])` */
  function LaneDestinations(layout: Layout, direction: Dir, lane: string): seq<string> {
    if direction in layout && lane in layout[direction] then layout[direction][lane] else []
  }

  /** `list.index`: the first position of `x`. */
  function IndexOf(s: seq<string>, x: string): (i: nat)
    requires x in s
    ensures i < |s| && s[i] == x
    ensures forall k :: 0 <= k < i ==> s[k] != x
  {
    if s[0] == x then 0 else 1 + IndexOf(s[1..], x)
  }

  /** The movement type of a vehicle in `lane` approaching from `direction`
      towards `destination`, with the warning raised when it is unknown. */
  function Classify(layout: Layout, direction: Dir, lane: string, destination: string): (r: Route)
    ensures r.warning.Some? <==> r.move == Unknown
  {
    var destinations := LaneDestinations(layout, direction, lane);
    if destinations == [] then Route(Unknown, Some(UnknownLane))
    else if destination !in destinations then Route(Unknown, Some(UnreachableDestination))
    else
      var index := IndexOf(destinations, destination);
      var move :=
        if lane in SharedLanes then
          (if index == 0 then Right
           else if index == 1 then Straight
           else if index == 2 then Left
           else Unknown)
        else if lane in LeftTurnLanes then Left
        else Unknown;
      Route(move, if move == Unknown then Some(UnknownMovement) else None)
  }

  /** The classification in terms of where the destination stands in the
      lane's list: on a shared lane positions 0, 1, 2 are right, straight and
      left; on a dedicated lane every reachable destination is a left turn. */
  lemma ClassifyByPosition(layout: Layout, direction: Dir, lane: string, destination: string)
    ensures
      var ds := LaneDestinations(layout, direction, lane);
      var r := Classify(layout, direction, lane, destination);
      && (ds == [] ==> r == Route(Unknown, Some(UnknownLane)))
      && (ds != [] && destination !in ds ==> r == Route(Unknown, Some(UnreachableDestination)))
      && (lane in SharedLanes ==>
            && (r.move == Right <==> |ds| > 0 && ds[0] == destination)
            && (r.move == Straight <==> |ds| > 1 && ds[1] == destination && ds[0] != destination)
            && (r.move == Left <==>
                  |ds| > 2 && ds[2] == destination && ds[0] != destination && ds[1] != destination))
      && (lane in LeftTurnLanes ==> (r.move == Left <==> destination in ds))
      && (lane !in SharedLanes && lane !in LeftTurnLanes ==> r.move == Unknown)
  {
    var ds := LaneDestinations(layout, direction, lane);
    if destination in ds {
      var i := IndexOf(ds, destination);
      assert ds[i] == destination;
    }
  }

  // ----- construction -----

  /** `Vehicle.__init__`: validation in the source's order, then the time to
      the intersection and the movement type. */
  function NewVehicle(o: Observation, layout: Layout): Result<Built, ValidationError>
  {
    if o.speed < 0.0 then Failure(NegativeSpeed(o.id))
    else if o.distance < 0.0 then Failure(NegativeDistance(o.id))
    else match ParseDirection(o.direction)
      case None => Failure(InvalidDirection(o.id, Lower(o.direction)))
      case Some(d) =>
        if o.id == [] then Failure(EmptyId)
        else
          var route := Classify(layout, d, o.lane, o.destination);
          var time := TimeToIntersection(o.speed, o.distance);
          Success(Built(Vehicle(o.id, o.lane, o.speed, o.distance, d, o.destination, time, route.move),
                        route.warning))
  }

  /** Validation happens in the source's order (speed, distance, direction,
      identifier); an accepted vehicle keeps the observation's fields, with
      the direction lower-cased, never arrives exactly when its speed is
      zero, and gets the movement and warning that the layout gives its
      direction, lane and destination. */
  lemma NewVehicleContract(o: Observation, layout: Layout)
    ensures o.speed < 0.0 ==> NewVehicle(o, layout) == Failure(NegativeSpeed(o.id))
    ensures o.speed >= 0.0 && o.distance < 0.0 ==>
              NewVehicle(o, layout) == Failure(NegativeDistance(o.id))
    ensures o.speed >= 0.0 && o.distance >= 0.0 && ParseDirection(o.direction).None? ==>
              NewVehicle(o, layout) == Failure(InvalidDirection(o.id, Lower(o.direction)))
    ensures o.speed >= 0.0 && o.distance >= 0.0 && ParseDirection(o.direction).Some? && o.id == [] ==>
              NewVehicle(o, layout) == Failure(EmptyId)
    ensures NewVehicle(o, layout).Success? <==>
              o.speed >= 0.0 && o.distance >= 0.0 && ParseDirection(o.direction).Some? && o.id != []
    ensures NewVehicle(o, layout).Success? ==>
              var b := NewVehicle(o, layout).value;
              var v := b.vehicle;
              && v.id == o.id && v.lane == o.lane && v.speed == o.speed && v.distance == o.distance
              && DirName(v.direction) == Lower(o.direction) && v.destination == o.destination
              && (v.time.Inf? <==> o.speed == 0.0)
              && (v.time.Finite? ==> v.time.seconds == o.distance * 3.6 / o.speed && v.time.seconds >= 0.0)
              && (b.warning.Some? <==> v.move == Unknown)
              && Classify(layout, v.direction, o.lane, o.destination) == Route(v.move, b.warning)
  {
    TimeToIntersectionSpec(o.speed, o.distance);
    if NewVehicle(o, layout).Success? {
      ParseDirectionSpec(o.direction, NewVehicle(o, layout).value.vehicle.direction);
    }
  }
}
