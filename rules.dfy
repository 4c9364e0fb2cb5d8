/** The pairwise decisions: whether two paths cross, whether two arrivals
    are close, and which of two conflicting vehicles keeps the right of way. */
module Rules {
  import opened Vehicles

  // ----- directions -----

  /** Position in the cyclic order north, east, south, west. */
  function DirIndex(d: Dir): int {
    match d
    case North => 0
    case East => 1
    case South => 2
    case West => 3
  }

  function Opposite(d: Dir): Dir {
    match d
    case North => South
    case East => West
    case South => North
    case West => East
  }

  /** The next direction clockwise. */
  function Clockwise(d: Dir): Dir {
    match d
    case North => East
    case East => South
    case South => West
    case West => North
  }

  datatype Relation = Same | Opposed | Adjacent

  function RelationOf(d1: Dir, d2: Dir): Relation {
    if d1 == d2 then Same else if Opposite(d1) == d2 then Opposed else Adjacent
  }

  /** `is_vehicle_on_right`: the index difference modulo 4 (Python's `%`,
      which agrees with Dafny's for a positive divisor) is one. */
  function IsVehicleOnRight(v1: Vehicle, v2: Vehicle): (r: bool)
    ensures r <==> v2.direction == Clockwise(v1.direction)
  {
    (DirIndex(v2.direction) - DirIndex(v1.direction)) % 4 == 1
  }

  /** Being on the right is irreflexive and asymmetric, and between two
      adjacent directions exactly one vehicle is on the other's right. */
  lemma OnRightRelation(v1: Vehicle, v2: Vehicle)
    ensures v1.direction == v2.direction ==> !IsVehicleOnRight(v1, v2)
    ensures IsVehicleOnRight(v1, v2) ==> !IsVehicleOnRight(v2, v1)
    ensures IsVehicleOnRight(v1, v2) || IsVehicleOnRight(v2, v1) <==>
              RelationOf(v1.direction, v2.direction) == Adjacent
  {
  }

  // ----- paths_cross -----

  /** Which movement pairs meet, by relation of the approach directions:
      nothing from the same approach; from opposite approaches exactly when
      one of the two (and only one) turns left; from adjacent approaches
      unless both turn right. */
  predicate CrossTable(m1: Move, m2: Move, rel: Relation) {
    match rel
    case Same => false
    case Opposed => (m1 == Left) != (m2 == Left)
    case Adjacent => !(m1 == Right && m2 == Right)
  }

  /** `paths_cross`: the source's ordered rules, first match wins. */
  function PathsCross(v1: Vehicle, v2: Vehicle): bool {
    var m1, m2, d1, d2 := v1.move, v2.move, v1.direction, v2.direction;
    if m1 == Unknown || m2 == Unknown then false
    else if v1.id == v2.id then false
    else if d1 == d2 then false
    else if m1 == Straight && m2 == Straight && Opposite(d1) == d2 then false
    else if m1 == Left && m2 == Left && Opposite(d1) == d2 then false
    else if m1 == Right && m2 == Right && Opposite(d1) == d2 then false
    else if m1 == Right && m2 == Right && d1 != d2 && Opposite(d1) != d2 then false
    else if m1 == Straight && m2 == Straight && d1 != d2 && Opposite(d1) != d2 then true
    else if m1 == Left || m2 == Left then true
    else if (m1 == Right && m2 == Straight && d1 != d2 && Opposite(d1) != d2)
         || (m2 == Right && m1 == Straight && d1 != d2 && Opposite(d2) != d1) then true
    else false
  }

  /** The ordered rules amount to the table: two known movements of two
      different vehicles, meeting as `CrossTable` says. */
  lemma PathsCrossSpec(v1: Vehicle, v2: Vehicle)
    ensures PathsCross(v1, v2) <==>
      && v1.move != Unknown && v2.move != Unknown
      && v1.id != v2.id
      && CrossTable(v1.move, v2.move, RelationOf(v1.direction, v2.direction))
  {
  }

  lemma PathsCrossSymmetric(v1: Vehicle, v2: Vehicle)
    ensures PathsCross(v1, v2) == PathsCross(v2, v1)
  {
    PathsCrossSpec(v1, v2);
    PathsCrossSpec(v2, v1);
  }

  // ----- arrival_time_close -----

  const DefaultThreshold: real := 4.0

  /** `arrival_time_close`: false when either time is infinite. */
  function ArrivalTimeClose(v1: Vehicle, v2: Vehicle, threshold: real): bool {
    match (v1.time, v2.time)
    case (Finite(t1), Finite(t2)) =>
      var diff := if t1 >= t2 then t1 - t2 else t2 - t1;
      diff <= threshold
    case _ => false
  }

  /** Closeness is symmetric, needs two finite times, and holds exactly when
      the two times lie within the threshold of each other. */
  lemma ArrivalTimeCloseSpec(v1: Vehicle, v2: Vehicle, threshold: real)
    ensures ArrivalTimeClose(v1, v2, threshold) == ArrivalTimeClose(v2, v1, threshold)
    ensures ArrivalTimeClose(v1, v2, threshold) <==>
      && v1.time.Finite? && v2.time.Finite?
      && v1.time.seconds <= v2.time.seconds + threshold
      && v2.time.seconds <= v1.time.seconds + threshold
  {
  }

  /** A vehicle observed at zero speed is close to nobody, in either argument position. */
  lemma StoppedVehicleNeverClose(o: Observation, layout: Layout, other: Vehicle, threshold: real)
    requires o.speed == 0.0 && NewVehicle(o, layout).Success?
    ensures var v := NewVehicle(o, layout).value.vehicle;
      !ArrivalTimeClose(v, other, threshold) && !ArrivalTimeClose(other, v, threshold)
  {
    NewVehicleContract(o, layout);
  }

  // ----- apply_priority_rules -----

  datatype Verdict = Verdict(decision: string, priority: map<string, int>)

  function YieldDecision(loser: string, winner: string): string {
    "Potential conflict: Vehicle " + loser + " must yield to Vehicle " + winner
  }

  /** `abs(t1 - t2) <= 1.0` on floats: false once a time is infinite
      (the difference is then infinite or not a number). */
  predicate Simultaneous(t1: Time, t2: Time) {
    match (t1, t2)
    case (Finite(a), Finite(b)) => (if a >= b then a - b else b - a) <= 1.0
    case _ => false
  }

  /** `t1 > t2` on floats, infinity included. */
  predicate ArrivesLater(t1: Time, t2: Time) {
    match (t1, t2)
    case (Finite(a), Finite(b)) => a > b
    case (Inf, Finite(_)) => true
    case (_, Inf) => false
  }

  /** The source's cascade: within one second, straight beats a turn, then a
      right turn beats a left turn, then the vehicle on the other's right
      goes first; otherwise the first to arrive goes first. */
  predicate FirstHasPriority(v1: Vehicle, v2: Vehicle) {
    if Simultaneous(v1.time, v2.time) then
      if v1.move == Straight && v2.move != Straight then true
      else if v2.move == Straight && v1.move != Straight then false
      else if v1.move == Right && v2.move == Left then true
      else if v2.move == Right && v1.move == Left then false
      else !IsVehicleOnRight(v1, v2)
    else !ArrivesLater(v1.time, v2.time)
  }

  /** `apply_priority_rules`: the decision text and the rank map of the pair. */
  function ApplyPriorityRules(v1: Vehicle, v2: Vehicle): (r: Verdict)
    ensures r.priority.Keys == {v1.id, v2.id}
  {
    if FirstHasPriority(v1, v2) then
      Verdict(YieldDecision(v2.id, v1.id), map[v1.id := 1, v2.id := 2])
    else
      Verdict(YieldDecision(v1.id, v2.id), map[v2.id := 1, v1.id := 2])
  }

  /** Of two different vehicles, one is ranked 1 and the other 2, and the
      decision says that the second yields to the first. */
  lemma VerdictShape(v1: Vehicle, v2: Vehicle)
    requires v1.id != v2.id
    ensures var r := ApplyPriorityRules(v1, v2);
      || (r.priority == map[v1.id := 1, v2.id := 2] && r.decision == YieldDecision(v2.id, v1.id))
      || (r.priority == map[v2.id := 1, v1.id := 2] && r.decision == YieldDecision(v1.id, v2.id))
  {
  }

  /** More than a second apart, the earlier vehicle goes first. */
  lemma FirstToArriveWins(v1: Vehicle, v2: Vehicle)
    requires v1.id != v2.id && v1.time.Finite? && v2.time.Finite?
    requires v1.time.seconds + 1.0 < v2.time.seconds || v2.time.seconds + 1.0 < v1.time.seconds
    ensures ApplyPriorityRules(v1, v2).priority[v1.id] == 1 <==> v1.time.seconds < v2.time.seconds
  {
  }

  /** Within a second, a straight vehicle beats a turning one. */
  lemma StraightBeatsTurn(v1: Vehicle, v2: Vehicle)
    requires v1.id != v2.id && Simultaneous(v1.time, v2.time)
    requires (v1.move == Straight) != (v2.move == Straight)
    ensures ApplyPriorityRules(v1, v2).priority[v1.id] == 1 <==> v1.move == Straight
  {
  }

  /** Within a second and with no straight vehicle involved, a right turn
      beats a left turn. */
  lemma RightBeatsLeft(v1: Vehicle, v2: Vehicle)
    requires v1.id != v2.id && Simultaneous(v1.time, v2.time)
    requires (v1.move == Right && v2.move == Left) || (v1.move == Left && v2.move == Right)
    ensures ApplyPriorityRules(v1, v2).priority[v1.id] == 1 <==> v1.move == Right
  {
  }

  /** Otherwise the right-hand rule decides: the second vehicle wins exactly
      when it approaches from one step clockwise of the first. */
  lemma RightHandRule(v1: Vehicle, v2: Vehicle)
    requires v1.id != v2.id && Simultaneous(v1.time, v2.time)
    requires (v1.move == Straight) == (v2.move == Straight)
    requires !((v1.move == Right && v2.move == Left) || (v1.move == Left && v2.move == Right))
    ensures ApplyPriorityRules(v1, v2).priority[v2.id] == 1 <==> v2.direction == Clockwise(v1.direction)
  {
  }

  /** For two paths that cross, the right-hand rule is only reached between
      adjacent approaches, so exactly one vehicle is on the other's right and
      the rule never falls back on argument order. */
  lemma RightHandRuleDecides(v1: Vehicle, v2: Vehicle)
    requires PathsCross(v1, v2)
    requires (v1.move == Straight) == (v2.move == Straight)
    requires !((v1.move == Right && v2.move == Left) || (v1.move == Left && v2.move == Right))
    ensures IsVehicleOnRight(v1, v2) != IsVehicleOnRight(v2, v1)
  {
    OnRightRelation(v1, v2);
  }

  /** For two crossing paths, the verdict does not depend on which vehicle is
      passed first, unless both never arrive. */
  lemma {:induction false} VerdictIndependentOfOrder(v1: Vehicle, v2: Vehicle)
    requires PathsCross(v1, v2)
    requires v1.time.Finite? || v2.time.Finite?
    ensures ApplyPriorityRules(v1, v2) == ApplyPriorityRules(v2, v1)
  {
    if Simultaneous(v1.time, v2.time)
      && (v1.move == Straight) == (v2.move == Straight)
      && !((v1.move == Right && v2.move == Left) || (v1.move == Left && v2.move == Right))
    {
      RightHandRuleDecides(v1, v2);
    }
    assert FirstHasPriority(v2, v1) == !FirstHasPriority(v1, v2);
    if FirstHasPriority(v1, v2) {
      assert map[v2.id := 2, v1.id := 1] == map[v1.id := 1, v2.id := 2];
    } else {
      assert map[v1.id := 2, v2.id := 1] == map[v2.id := 1, v1.id := 2];
    }
  }
}
