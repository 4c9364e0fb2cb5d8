# Intersection conflict detection — a verified model

This project models the rule-based core of a traffic-intersection data
generator. The generator reads the vehicles approaching a four-way
intersection and checks every pair of them for a conflict. A pair
conflicts when their paths cross and they arrive within four seconds of
each other. For each conflict it decides who yields:

- when the arrivals are more than a second apart, the first to arrive
  goes first;
- otherwise straight beats a turn, then a right turn beats a left turn,
  then the right-hand rule decides, whatever the order of arrival.

It gives each conflict the waiting times of its two vehicles. It then
summarises the scenario and schedules every vehicle involved in some
conflict through the intersection. Vehicles pass one at a time in
arrival order, and each one waits until the previous one has cleared
(two seconds).

The model is organised by module:

| module | models |
|---|---|
| `Vehicles` | A vehicle's construction: the validation order and errors, the time to the intersection (an infinite time for a stopped vehicle), and the movement type derived from the intersection layout. |
| `Parsing` | `parse_vehicles`. It fails on the first invalid entry or duplicate identifier, and collects the route warnings. |
| `Rules` | `paths_cross` as a table over the two movements and the relative position of the approaches; `arrival_time_close`; `is_vehicle_on_right`; the priority cascade of `apply_priority_rules`. |
| `Waiting` | `compute_waiting_times`, including the overflow that `math.ceil` raises on an infinite wait. |
| `Pairs` | The nested pair loop `for i … for j in range(i + 1, n)`, independently of what it collects. |
| `Detection` | `detect_conflicts`: a method whose loops are proved against the specification function `Conflicts`, plus lemmas that characterise `Conflicts` exactly. |
| `Sorting` | Python's stable `sorted` by time to intersection, as a stable insertion sort. |
| `Scheduler` | The summary and the scheduler of the generator: ranks, clearance waits, and defaults for vehicles outside any conflict. |

Times are exact reals, or `Inf` for a stopped vehicle. Float infinity is
followed explicitly wherever the source reaches it:

- `abs(inf - x) <= 1.0` is false;
- `inf > x` holds;
- `max(0, -inf)` is 0;
- `math.ceil(inf)` fails.

## Model

| member | source | states |
|---|---|---|
| Vehicles.Ceil | src/conflict_detection.py:439 | `math.ceil`: the result is the least integer not below its argument. |
| Vehicles.ParseDirectionSpec | src/conflict_detection.py:86-107 | A direction token is accepted exactly when its lower-cased text is one of north, east, south, west, and it then denotes that direction. |
| Vehicles.TimeToIntersectionSpec | src/conflict_detection.py:111-122 | The time is infinite exactly when the speed is zero. Otherwise it is distance·3.6/speed seconds, which is not negative for valid inputs. |
| Vehicles.IndexOf | src/conflict_detection.py:152 | `list.index`: the position holds the destination, and no earlier position does. |
| Vehicles.Classify | src/conflict_detection.py:124-172 | A warning is raised exactly when the movement is unknown. |
| Vehicles.ClassifyByPosition | src/conflict_detection.py:138-165 | The two warnings for an unknown lane or an unreachable destination. On lanes 1, 3, 5, 7, positions 0, 1, 2 of the destination list mean right, straight, left (each as an iff). On lanes 2, 4, 6, 8, every reachable destination is a left turn. Any other lane gives an unknown movement. |
| Vehicles.NewVehicleContract | src/conflict_detection.py:60-109 | Validation errors come in the source's order: negative speed, negative distance, invalid direction, empty identifier. Construction succeeds iff none applies. The vehicle keeps the observation's fields, never arrives iff its speed is zero, otherwise has distance·3.6/speed seconds, and carries a warning iff its movement is unknown. Its movement and warning are those `Classify` gives its direction, lane and destination. |
| Parsing.ParseVehicles | src/conflict_detection.py:175-203 | The loop's vehicles, first error and warnings equal those of the specification function `Parse`. |
| Parsing.FailureIsFinal | src/conflict_detection.py:188-202 | Once a prefix of the entries fails, the later entries do not change the outcome. |
| Parsing.ParseSuccessShape | src/conflict_detection.py:175-203 | A successful parse has one vehicle per entry, in order. Each is the vehicle its entry constructs, and the identifiers are pairwise distinct. |
| Parsing.IdsOfParsed | src/conflict_detection.py:188-202 | The parsed vehicles' identifiers are exactly the entries' identifiers. |
| Parsing.ParseSucceedsIff | src/conflict_detection.py:175-203 | Parsing succeeds iff every entry is a valid vehicle and no identifier repeats. |
| Parsing.DuplicateReportedFirst | src/conflict_detection.py:189-192 | After a successful prefix, an entry that repeats an earlier identifier fails the parse with a duplicate-identifier error. |
| Rules.IsVehicleOnRight | src/conflict_detection.py:316-333 | The second vehicle is on the first's right iff it approaches from the next direction clockwise. |
| Rules.OnRightRelation | src/conflict_detection.py:316-333 | "On the right" is irreflexive and asymmetric. It holds one way or the other iff the approaches are adjacent. |
| Rules.PathsCrossSpec | src/conflict_detection.py:206-291 | Paths cross iff both movements are known, the identifiers differ, and the crossing table holds for the two movements and the relative position of the approaches. |
| Rules.PathsCrossSymmetric | src/conflict_detection.py:206-291 | Whether paths cross does not depend on the order of the pair. |
| Rules.ArrivalTimeCloseSpec | src/conflict_detection.py:294-313 | Closeness is symmetric. It holds iff both times are finite and differ by at most the threshold. |
| Rules.StoppedVehicleNeverClose | src/conflict_detection.py:294-313 | A vehicle constructed with speed zero is never close in time to any other vehicle. |
| Rules.ApplyPriorityRules | src/conflict_detection.py:336-404 | The rank map covers exactly the two vehicles. |
| Rules.VerdictShape | src/conflict_detection.py:353-401 | Of two different vehicles, one is ranked 1 and the other 2, and the decision says that the second yields to the first. |
| Rules.FirstToArriveWins | src/conflict_detection.py:390-401 | More than a second apart, the first vehicle is ranked 1 iff it arrives earlier. |
| Rules.StraightBeatsTurn | src/conflict_detection.py:357-366 | Within a second, when exactly one vehicle goes straight, it is ranked 1. |
| Rules.RightBeatsLeft | src/conflict_detection.py:368-377 | Within a second, between a right turn and a left turn, the right turn is ranked 1. |
| Rules.RightHandRule | src/conflict_detection.py:379-389 | Within a second, when neither earlier rule decides, the second vehicle is ranked 1 iff it approaches from the first's right. |
| Rules.RightHandRuleDecides | src/conflict_detection.py:379-389 | For crossing paths that reach the right-hand rule, exactly one vehicle is on the other's right. |
| Rules.VerdictIndependentOfOrder | src/conflict_detection.py:336-404 | For crossing paths where at least one vehicle arrives, swapping the pair gives the same decision and ranks. |
| Waiting.Find | src/conflict_detection.py:422 | The lookup returns a vehicle of the list with that identifier, and fails iff none has it. |
| Waiting.FindFirst | src/conflict_detection.py:422 | The vehicle found is the first of the list with that identifier: no earlier vehicle carries it. |
| Waiting.FindDistinct | src/conflict_detection.py:422 | With distinct identifiers, the lookup of a vehicle's identifier returns that vehicle. |
| Waiting.LargestWait | src/conflict_detection.py:429-439 | The inner loop overflows iff some vehicle of higher priority has an infinite clearance wait. Otherwise its rounded value is the waiting time: at least every rounded clearance wait, and equal to one of them, or to 0. |
| Waiting.ComputeWaitingTimes | src/conflict_detection.py:407-440 | It fails iff some clearance wait is infinite. Otherwise its keys are the ranked identifiers found among the vehicles, and each value is that vehicle's waiting time (0 for rank 1). |
| Detection.InConflictFacts | src/conflict_detection.py:467-468 | A reported pair has two different vehicles with known movements that both arrive. |
| Detection.NoOverflowForFinite | src/conflict_detection.py:470 | The waiting times of two vehicles with finite times never overflow. |
| Detection.FindInPair | src/conflict_detection.py:470 | In a pair with distinct identifiers, each lookup finds its own vehicle and no other identifier is found. |
| Detection.PairWaitsDetermined | src/conflict_detection.py:407-440 | Given ranks 1 and 2, the waiting times of a pair are 0 for the first and the rounded clearance wait for the second. |
| Detection.LoserWait | src/conflict_detection.py:437-439 | The vehicle ranked 2 waits the rounded-up clearance wait behind the vehicle ranked 1. |
| Detection.WaitsOfPair | src/conflict_detection.py:470 | `compute_waiting_times` on a reported pair succeeds and yields that pair's waiting times. |
| Detection.RecordOfPair | src/conflict_detection.py:469-478 | The record the loop appends equals the specification's record of the pair. |
| Detection.CheckPair | src/conflict_detection.py:463-478 | One inner-loop step contributes exactly the specification's contribution of the pair. |
| Detection.ScanPartners | src/conflict_detection.py:462-478 | The inner loop appends the records of vehicle `i` with each later partner, in order. |
| Detection.DetectConflicts | src/conflict_detection.py:443-486 | The result is the specification's list of conflicts, in loop order. |
| Detection.ConflictsExact | src/conflict_detection.py:459-486 | Every reported record comes from a pair `a < b` whose paths cross and whose arrivals are close. Every such pair is reported. |
| Detection.NoConflictIff | src/conflict_detection.py:459-486 | No conflict is reported iff no pair conflicts. |
| Detection.ConflictsBound | src/conflict_detection.py:461-478 | At most one record per pair: 2·count ≤ n·(n−1). |
| Detection.ConflictRecordShape | src/conflict_detection.py:469-477 | A record names its two distinct vehicles and the place "intersection", and ranks them 1 and 2. The decision says who yields to whom. The first waits 0; the second waits between 0 and 6 seconds, and 0 iff it arrives at least 2 s after the first. |
| Pairs.RowSource | src/conflict_detection.py:462-478 | Everything the inner loop collects comes from one later partner. |
| Pairs.RowHas | src/conflict_detection.py:462-478 | Everything a later partner yields is collected by the inner loop. |
| Pairs.RowsSource | src/conflict_detection.py:461-478 | Everything the nested loops collect comes from one pair `a < b`. |
| Pairs.RowsHas | src/conflict_detection.py:461-478 | Everything a pair `a < b` yields is collected by the nested loops. |
| Pairs.RowBound | src/conflict_detection.py:462-478 | When each pair yields at most one item, the inner loop collects at most one per partner. |
| Pairs.RowsBound | src/conflict_detection.py:461-478 | When each pair yields at most one item, the nested loops collect at most one per pair. |
| Sorting.InsertPermutes | src/data_generation.py:159 | Inserting adds exactly that vehicle to the multiset. |
| Sorting.InsertMember | src/data_generation.py:159 | The inserted list holds the old elements and the new one, and nothing else. |
| Sorting.InsertSorted | src/data_generation.py:159 | Inserting into a list sorted by time keeps it sorted. |
| Sorting.InsertStable | src/data_generation.py:159 | Inserting keeps the relative order of vehicles with equal times, and puts the new one after them. |
| Sorting.SortPermutes | src/data_generation.py:159 | Sorting is a permutation. |
| Sorting.SortSorted | src/data_generation.py:159 | The result is sorted by time to the intersection, with infinite times last. |
| Sorting.SortStable | src/data_generation.py:159 | Vehicles with equal times keep their input order, as Python's stable sort does. |
| Sorting.SortByTimeSpec | src/data_generation.py:159 | Sorting is a permutation, sorted, and stable. |
| Sorting.InsertDistinct | src/data_generation.py:159 | Inserting a vehicle with a new identifier keeps the identifiers distinct. |
| Sorting.SortMember | src/data_generation.py:159 | The sorted list holds exactly the vehicles of the input. |
| Sorting.SortKeepsDistinct | src/data_generation.py:159 | Sorting keeps the identifiers distinct and the vehicles the same. |
| Scheduler.Summarize | src/data_generation.py:126-147 | The summary says "yes" iff there is a conflict. The count equals the number of conflicts, and the places, pairs and decisions follow the conflicts one for one. The identifier set is that of all conflicts. |
| Scheduler.ConflictIdsOfDetection | src/data_generation.py:139-142 | An identifier is collected iff it belongs to a pair `a < b` of the scenario that conflicts. |
| Scheduler.InvolvedIdHasPair | src/data_generation.py:139-142 | Every collected identifier belongs to a conflicting pair. |
| Scheduler.PairIdsInvolved | src/data_generation.py:139-142 | Both identifiers of every conflicting pair are collected. |
| Scheduler.SelectSpec | src/data_generation.py:151 | The selection keeps exactly the scenario's vehicles whose identifier is (or, for bystanders, is not) collected. It keeps identifiers distinct. |
| Scheduler.SelectWithTime | src/data_generation.py:151 | The selection keeps scenario order: the selected vehicles with any one arrival time are, in order, the selection of the scenario's vehicles with that time. |
| Scheduler.ConflictParticipantsFinite | src/data_generation.py:151 | Every vehicle involved in a conflict arrives in finite time and has a known movement. |
| Scheduler.EntryFinite | src/data_generation.py:168-179 | In arrival order, a vehicle enters in finite time iff it arrives in finite time, and its hold-up is always finite, so `math.ceil` cannot fail. |
| Scheduler.ScheduleSeparation | src/data_generation.py:168-179 | Each vehicle enters at the later of its own arrival and the previous entry plus 2 s, so consecutive entries are at least 2 s apart. Its rounded wait is the least whole number of seconds covering the hold-up, and never negative. |
| Scheduler.StoppedNeverWaits | src/data_generation.py:176-177 | A vehicle that never arrives has waiting time 0. |
| Scheduler.Ranks | src/data_generation.py:162-163 | The k-th vehicle of the order gets rank k+1, and only the ordered vehicles are ranked. |
| Scheduler.Waits | src/data_generation.py:165-179 | Every ordered vehicle gets its rounded wait behind the previous vehicle's entry, and no other vehicle gets one. |
| Scheduler.OrderOfConflicting | src/data_generation.py:151-159 | The order is the involved vehicles sorted by time, with distinct identifiers. Vehicles with equal times keep their scenario order. |
| Scheduler.SplitIds | src/data_generation.py:151-182 | The involved vehicles and the bystanders together cover the scenario's identifiers, and do not share any. |
| Scheduler.MarkBystanders | src/data_generation.py:182-185 | Bystanders get no rank and no wait. The ranks and waits of the ordered vehicles are kept. |
| Scheduler.Schedule | src/data_generation.py:151-185 | Every vehicle of the scenario gets a rank and a wait. The involved vehicles get ranks 1..n in arrival order and their clearance waits. The others get no rank and wait 0. |
| Scheduler.RankedIffInvolved | src/data_generation.py:149-185 | A vehicle is ranked iff it takes part in some conflict, and a ranked vehicle arrives in finite time. |
| Scheduler.AnalyzeScenario | src/data_generation.py:124-185 | For one parsed scenario, the record's label is "yes" when some pair conflicts and "no" otherwise, and the record counts the conflicts. Its places, vehicle pairs and decisions follow the detected conflicts one for one. It ranks and gives a wait to every vehicle, ranked iff involved in a conflict, and unranked vehicles wait 0. The ranks and waits follow the arrival-ordered schedule. |

## Left out

- `parse_intersection_layout` and the JSON files. The layout is a parameter, a map from direction to lane to destinations.
- Random scenario generation, the loop that balances "yes" and "no" records, the DataFrame, and the JSON text of the scenario in each record. These are I/O and randomness around the core.
- `warnings.warn` is modelled as a returned warning value. Python's warning filters are not modelled.
- The `log` flag and its `print` calls have no effect on results.
- `output_conflicts` is not modelled, since it does nothing.
- Lower-casing covers ASCII letters only. No non-ASCII character lower-cases to a letter of the four direction names, so the accepted tokens are the same.
- The lane is taken as the text `str(lane)` gives. The conversion itself is not modelled.
- Arithmetic on times is exact real arithmetic. IEEE rounding of `distance / speed` and of the wait sums is not modelled.
- Error messages are modelled as error values with their data, not as text. The decision text is modelled exactly.
- The priority and waiting maps are Dafny maps, so the insertion order of Python dicts is not modelled. No result depends on it.
- The nested loops of `compute_waiting_times` and `detect_conflicts`, and the bystander loop of the scheduler, are split into helper methods: `LargestWait`, `ScanPartners`, `CheckPair`, `MarkBystanders`.
- `Scheduler.Schedule` and `Scheduler.AnalyzeScenario` require distinct identifiers. Their only input is the output of `parse_vehicles`, which guarantees them (`Parsing.ParseSuccessShape`).
- `Scheduler.Summarize` states `number_of_conflicts`, `places_of_conflicts`, `conflict_vehicles` and `decisions` element by element. It does not model the record's dictionary layout.
