/** `sorted(vehicles, key=lambda v: v.time_to_intersection)`: a stable sort
    by arrival time, infinity last. */
module Sorting {
  import opened Vehicles

  /** `t1 <= t2` on floats, infinity included. */
  predicate TimeLe(t1: Time, t2: Time) {
    match (t1, t2)
    case (Finite(a), Finite(b)) => a <= b
    case (_, Inf) => true
    case (Inf, Finite(_)) => false
  }

  predicate SortedByTime(s: seq<Vehicle>) {
    forall i, j :: 0 <= i < j < |s| ==> TimeLe(s[i].time, s[j].time)
  }

  /** Places `x` after every element that does not arrive later than it, so
      that among equal times the input order is kept. */
  function Insert(t: seq<Vehicle>, x: Vehicle): seq<Vehicle>
    decreases |t|
  {
    if t == [] then [x]
    else if TimeLe(t[|t| - 1].time, x.time) then t + [x]
    else Insert(t[..|t| - 1], x) + [t[|t| - 1]]
  }

  function SortByTime(s: seq<Vehicle>): seq<Vehicle>
    decreases |s|
  {
    if s == [] then [] else Insert(SortByTime(s[..|s| - 1]), s[|s| - 1])
  }

  /** The vehicles of `s` arriving exactly at `time`, in order. */
  function WithTime(s: seq<Vehicle>, time: Time): seq<Vehicle>
    decreases |s|
  {
    if s == [] then []
    else WithTime(s[..|s| - 1], time) + (if s[|s| - 1].time == time then [s[|s| - 1]] else [])
  }

  lemma WithTimeAppend(s: seq<Vehicle>, x: Vehicle, time: Time)
    ensures WithTime(s + [x], time) == WithTime(s, time) + (if x.time == time then [x] else [])
  {
    assert (s + [x])[..|s|] == s;
  }

  lemma {:induction false} InsertPermutes(t: seq<Vehicle>, x: Vehicle)
    ensures multiset(Insert(t, x)) == multiset(t) + multiset{x}
    decreases |t|
  {
    if t != [] && !TimeLe(t[|t| - 1].time, x.time) {
      var n := |t| - 1;
      InsertPermutes(t[..n], x);
      assert t == t[..n] + [t[n]];
    }
  }

  /** Inserting adds exactly the new vehicle. */
  lemma {:induction false} InsertMember(t: seq<Vehicle>, x: Vehicle, v: Vehicle)
    ensures v in Insert(t, x) <==> v in t || v == x
    decreases |t|
  {
    if t != [] && !TimeLe(t[|t| - 1].time, x.time) {
      var n := |t| - 1;
      InsertMember(t[..n], x, v);
      assert t == t[..n] + [t[n]];
    }
  }

  lemma {:induction false} InsertSorted(t: seq<Vehicle>, x: Vehicle)
    requires SortedByTime(t)
    ensures SortedByTime(Insert(t, x))
    decreases |t|
  {
    if t != [] && !TimeLe(t[|t| - 1].time, x.time) {
      var n := |t| - 1;
      var init := t[..n];
      assert SortedByTime(init);
      InsertSorted(init, x);
      var r := Insert(init, x);
      assert Insert(t, x) == r + [t[n]];
      forall k | 0 <= k < |r| ensures TimeLe(r[k].time, t[n].time) {
        InsertMember(init, x, r[k]);
        if r[k] != x {
          var m :| 0 <= m < n && init[m] == r[k];
          assert t[m] == r[k];
        }
      }
    }
  }

  /** Inserting `x` keeps the relative order of the vehicles that share any
      one arrival time, and puts `x` after those already there. */
  lemma {:induction false} InsertStable(t: seq<Vehicle>, x: Vehicle, time: Time)
    ensures WithTime(Insert(t, x), time) == WithTime(t, time) + (if x.time == time then [x] else [])
    decreases |t|
  {
    if t == [] {
      WithTimeAppend([], x, time);
    } else if TimeLe(t[|t| - 1].time, x.time) {
      WithTimeAppend(t, x, time);
    } else {
      var n := |t| - 1;
      var init, last := t[..n], t[n];
      assert t == init + [last];
      var ex := if x.time == time then [x] else [];
      var el := if last.time == time then [last] else [];
      assert ex == [] || el == [] by {
        assert last.time != x.time;
      }
      InsertStable(init, x, time);
      WithTimeAppend(Insert(init, x), last, time);
      WithTimeAppend(init, last, time);
      calc {
        WithTime(Insert(t, x), time);
        WithTime(Insert(init, x) + [last], time);
        WithTime(Insert(init, x), time) + el;
        WithTime(init, time) + ex + el;
        { assert ex + el == el + ex; }
        WithTime(init, time) + el + ex;
        WithTime(t, time) + ex;
      }
    }
  }

  lemma {:induction false} SortPermutes(s: seq<Vehicle>)
    ensures multiset(SortByTime(s)) == multiset(s)
    decreases |s|
  {
    if s != [] {
      var n := |s| - 1;
      var init, last := s[..n], s[n];
      assert SortByTime(s) == Insert(SortByTime(init), last);
      InsertPermutes(SortByTime(init), last);
      SortPermutes(init);
      MultisetOfLast(s);
    }
  }

  lemma MultisetOfLast(s: seq<Vehicle>)
    requires s != []
    ensures multiset(s) == multiset(s[..|s| - 1]) + multiset{s[|s| - 1]}
  {
    assert s == s[..|s| - 1] + [s[|s| - 1]];
  }

  lemma {:induction false} SortSorted(s: seq<Vehicle>)
    ensures SortedByTime(SortByTime(s))
    decreases |s|
  {
    if s != [] {
      var n := |s| - 1;
      var init, last := s[..n], s[n];
      assert SortByTime(s) == Insert(SortByTime(init), last);
      SortSorted(init);
      InsertSorted(SortByTime(init), last);
    }
  }

  lemma {:induction false} SortStable(s: seq<Vehicle>, time: Time)
    ensures WithTime(SortByTime(s), time) == WithTime(s, time)
    decreases |s|
  {
    if s != [] {
      var n := |s| - 1;
      var init, last := s[..n], s[n];
      assert SortByTime(s) == Insert(SortByTime(init), last);
      SortStable(init, time);
      InsertStable(SortByTime(init), last, time);
      assert WithTime(s, time) == WithTime(init, time) + (if last.time == time then [last] else []);
    }
  }

  /** `sorted` returns a permutation of its input, ordered by arrival time,
      and keeps the input order among equal times; these three facts
      determine its result. */
  lemma SortByTimeSpec(s: seq<Vehicle>)
    ensures multiset(SortByTime(s)) == multiset(s)
    ensures SortedByTime(SortByTime(s))
    ensures forall time :: WithTime(SortByTime(s), time) == WithTime(s, time)
  {
    SortPermutes(s);
    SortSorted(s);
    forall time ensures WithTime(SortByTime(s), time) == WithTime(s, time) {
      SortStable(s, time);
    }
  }

  lemma {:induction false} InsertDistinct(t: seq<Vehicle>, x: Vehicle)
    requires DistinctIds(t) && x.id !in IdSet(t)
    ensures DistinctIds(Insert(t, x))
    decreases |t|
  {
    if t == [] {
    } else if TimeLe(t[|t| - 1].time, x.time) {
      DistinctAppend(t, x);
    } else {
      var n := |t| - 1;
      var init := t[..n];
      assert t == init + [t[n]];
      DistinctAppend(init, t[n]);
      InsertDistinct(init, x);
      var r := Insert(init, x);
      assert Insert(t, x) == r + [t[n]];
      forall v | v in r ensures v.id != t[n].id {
        InsertMember(init, x, v);
      }
      DistinctAppend(r, t[n]);
    }
  }

  /** Sorting keeps exactly the vehicles it is given. */
  lemma {:induction false} SortMember(s: seq<Vehicle>, v: Vehicle)
    ensures v in SortByTime(s) <==> v in s
    decreases |s|
  {
    if s != [] {
      var n := |s| - 1;
      var init, last := s[..n], s[n];
      assert SortByTime(s) == Insert(SortByTime(init), last);
      InsertMember(SortByTime(init), last, v);
      SortMember(init, v);
      assert s == init + [last];
    }
  }

  /** Sorting keeps the vehicles, and so keeps identifiers distinct. */
  lemma {:induction false} SortKeepsDistinct(s: seq<Vehicle>)
    requires DistinctIds(s)
    ensures DistinctIds(SortByTime(s))
    ensures forall v :: v in SortByTime(s) <==> v in s
    decreases |s|
  {
    if s != [] {
      var n := |s| - 1;
      var init, last := s[..n], s[n];
      assert s == init + [last];
      assert SortByTime(s) == Insert(SortByTime(init), last);
      DistinctAppend(init, last);
      SortKeepsDistinct(init);
      assert last.id !in IdSet(SortByTime(init)) by {
        forall v | v in SortByTime(init) ensures v.id != last.id {
          assert v in init;
        }
      }
      InsertDistinct(SortByTime(init), last);
    }
    forall v ensures v in SortByTime(s) <==> v in s {
      SortMember(s, v);
    }
  }
}
