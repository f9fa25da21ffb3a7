/**
 * The date-grouped projection of the activity store (`groupActivitiesByDate`): the
 * activities are sorted by timestamp with a stable sort, then filed, in that order, into
 * a plain object keyed by calendar day, whose entries are returned in property order.
 */
module Grouping {
  import opened Wrappers
  import opened Activities
  import opened OrderedMaps

  /** One entry of the projection: a calendar day and the activities on it. */
  type DayGroup = (string, seq<Activity>)

  /** The object the `reduce` builds: day to activities, days in the order first filed. */
  type DayIndex = OrderedMap<string, seq<Activity>>

  // ------------------------------------------------------------------
  // Sorting by timestamp. `timeOf` stands for `Date.parse`.
  // ------------------------------------------------------------------

  /** Timestamps never decrease along `s`. */
  predicate SortedByTime(s: seq<Activity>, timeOf: string -> int) {
    forall i, j :: 0 <= i < j < |s| ==> timeOf(s[i].date) <= timeOf(s[j].date)
  }

  /** The activities of `s` whose timestamp is `t`, in their order in `s`. */
  function AtTime(s: seq<Activity>, timeOf: string -> int, t: int): seq<Activity> {
    if s == [] then []
    else AtTime(s[..|s| - 1], timeOf, t) + (if timeOf(s[|s| - 1].date) == t then [s[|s| - 1]] else [])
  }

  /** Places `x` behind every element of `t` whose timestamp is not later than its own. */
  function Insert(t: seq<Activity>, x: Activity, timeOf: string -> int): seq<Activity> {
    if t == [] then [x]
    else if timeOf(t[|t| - 1].date) <= timeOf(x.date) then t + [x]
    else Insert(t[..|t| - 1], x, timeOf) + [t[|t| - 1]]
  }

  lemma {:induction false} InsertPermutes(t: seq<Activity>, x: Activity, timeOf: string -> int)
    ensures multiset(Insert(t, x, timeOf)) == multiset(t) + multiset{x}
  {
    if t != [] && timeOf(t[|t| - 1].date) > timeOf(x.date) {
      var u, l := t[..|t| - 1], t[|t| - 1];
      assert t == u + [l];
      InsertPermutes(u, x, timeOf);
    }
  }

  lemma {:induction false} InsertBounded(t: seq<Activity>, x: Activity, timeOf: string -> int, b: int)
    requires forall k :: 0 <= k < |t| ==> timeOf(t[k].date) <= b
    requires timeOf(x.date) <= b
    ensures forall k :: 0 <= k < |Insert(t, x, timeOf)| ==> timeOf(Insert(t, x, timeOf)[k].date) <= b
  {
    if t != [] && timeOf(t[|t| - 1].date) > timeOf(x.date) {
      InsertBounded(t[..|t| - 1], x, timeOf, b);
    }
  }

  lemma {:induction false} InsertSorted(t: seq<Activity>, x: Activity, timeOf: string -> int)
    requires SortedByTime(t, timeOf)
    ensures SortedByTime(Insert(t, x, timeOf), timeOf)
  {
    if t != [] && timeOf(t[|t| - 1].date) > timeOf(x.date) {
      var u, l := t[..|t| - 1], t[|t| - 1];
      InsertSorted(u, x, timeOf);
      InsertBounded(u, x, timeOf, timeOf(l.date));
      var i := Insert(u, x, timeOf);
      var r := i + [l];
      forall p, q | 0 <= p < q < |r| ensures timeOf(r[p].date) <= timeOf(r[q].date) {
        if q < |i| {
          assert r[p] == i[p] && r[q] == i[q];
        }
      }
    }
  }

  /** Inserting `x` adds it behind every element with the same timestamp. */
  lemma {:induction false} InsertStable(t: seq<Activity>, x: Activity, timeOf: string -> int, v: int)
    ensures AtTime(Insert(t, x, timeOf), timeOf, v) == AtTime(t, timeOf, v) + (if timeOf(x.date) == v then [x] else [])
  {
    if t == [] {
      assert [x][..0] == [];
    } else if timeOf(t[|t| - 1].date) <= timeOf(x.date) {
      var r := t + [x];
      assert r[..|r| - 1] == t;
    } else {
      var u, l := t[..|t| - 1], t[|t| - 1];
      InsertStable(u, x, timeOf, v);
      var i := Insert(u, x, timeOf);
      var r := i + [l];
      assert r[..|r| - 1] == i;
      assert AtTime(r, timeOf, v) == AtTime(i, timeOf, v) + (if timeOf(l.date) == v then [l] else []);
      assert AtTime(t, timeOf, v) == AtTime(u, timeOf, v) + (if timeOf(l.date) == v then [l] else []);
    }
  }

  /**
   * `activities.sort((a, b) => Date.parse(a.date) - Date.parse(b.date))`: the result is a
   * permutation of the input ordered by timestamp.
   */
  function SortByTime(s: seq<Activity>, timeOf: string -> int): (r: seq<Activity>)
    ensures multiset(r) == multiset(s)
    ensures SortedByTime(r, timeOf)
  {
    if s == [] then []
    else
      var front := SortByTime(s[..|s| - 1], timeOf);
      InsertPermutes(front, s[|s| - 1], timeOf);
      InsertSorted(front, s[|s| - 1], timeOf);
      assert s == s[..|s| - 1] + [s[|s| - 1]];
      Insert(front, s[|s| - 1], timeOf)
  }

  /** The sort is stable: activities with the same timestamp keep their relative order. */
  lemma {:induction false} SortByTimeStable(s: seq<Activity>, timeOf: string -> int, v: int)
    ensures AtTime(SortByTime(s, timeOf), timeOf, v) == AtTime(s, timeOf, v)
  {
    if s != [] {
      var front := SortByTime(s[..|s| - 1], timeOf);
      SortByTimeStable(s[..|s| - 1], timeOf, v);
      InsertStable(front, s[|s| - 1], timeOf, v);
    }
  }

  // ------------------------------------------------------------------
  // Filing by calendar day.
  // ------------------------------------------------------------------

  /** The activities of `s` on `day`, in their order in `s`. */
  function OnDay(s: seq<Activity>, day: string): seq<Activity> {
    if s == [] then []
    else OnDay(s[..|s| - 1], day) + (if DatePart(s[|s| - 1].date) == day then [s[|s| - 1]] else [])
  }

  /** The position of the first activity of `s` on `day`; `|s|` when there is none. */
  function FirstOnDay(s: seq<Activity>, day: string): (p: nat)
    ensures p <= |s|
    ensures p < |s| ==> DatePart(s[p].date) == day
    ensures forall i :: 0 <= i < p ==> DatePart(s[i].date) != day
  {
    if s == [] then 0
    else
      var p := FirstOnDay(s[..|s| - 1], day);
      if p < |s| - 1 then p
      else if DatePart(s[|s| - 1].date) == day then |s| - 1
      else |s|
  }

  lemma {:induction false} OnDayMembers(s: seq<Activity>, day: string)
    ensures forall a :: a in OnDay(s, day) <==> a in s && DatePart(a.date) == day
  {
    if s != [] {
      OnDayMembers(s[..|s| - 1], day);
      assert s == s[..|s| - 1] + [s[|s| - 1]];
    }
  }

  lemma {:induction false} OnDayBounded(s: seq<Activity>, day: string, timeOf: string -> int, b: int)
    requires forall k :: 0 <= k < |s| ==> timeOf(s[k].date) <= b
    ensures forall k :: 0 <= k < |OnDay(s, day)| ==> timeOf(OnDay(s, day)[k].date) <= b
  {
    if s != [] {
      OnDayBounded(s[..|s| - 1], day, timeOf, b);
    }
  }

  lemma {:induction false} OnDaySorted(s: seq<Activity>, day: string, timeOf: string -> int)
    requires SortedByTime(s, timeOf)
    ensures SortedByTime(OnDay(s, day), timeOf)
  {
    if s != [] {
      var u, a := s[..|s| - 1], s[|s| - 1];
      OnDaySorted(u, day, timeOf);
      OnDayBounded(u, day, timeOf, timeOf(a.date));
      var f := OnDay(u, day);
      var r := OnDay(s, day);
      forall p, q | 0 <= p < q < |r| ensures timeOf(r[p].date) <= timeOf(r[q].date) {
        if q < |f| {
          assert r[p] == f[p] && r[q] == f[q];
        }
      }
    }
  }

  /** One step of the `reduce`: files `a` under its day, opening the day's entry if it has none. */
  function Bucket(acc: DayIndex, a: Activity): (r: DayIndex)
    requires acc.Valid()
    ensures r.Valid()
    ensures r.Get(DatePart(a.date)) == Some(match acc.Get(DatePart(a.date)) case Some(g) => g + [a] case None => [a])
    ensures forall d :: d != DatePart(a.date) ==> r.Get(d) == acc.Get(d)
  {
    var day := DatePart(a.date);
    match acc.Get(day)
    case Some(g) => acc.Set(day, g + [a])
    case None => acc.Set(day, [a])
  }

  /** `s.reduce(Bucket, {})`. */
  function GroupByDay(s: seq<Activity>): (r: DayIndex)
    ensures r.Valid()
    ensures forall d :: d in r.entries ==> r.entries[d] != [] && forall x :: x in r.entries[d] ==> DatePart(x.date) == d
  {
    if s == [] then OrderedMap.Empty() else Bucket(GroupByDay(s[..|s| - 1]), s[|s| - 1])
  }

  /** Each day of the index holds exactly that day's activities, in order; other days are absent. */
  lemma {:induction false} GroupByDayAt(s: seq<Activity>, day: string)
    ensures GroupByDay(s).Get(day) == if OnDay(s, day) == [] then None else Some(OnDay(s, day))
  {
    if s != [] {
      var u, a := s[..|s| - 1], s[|s| - 1];
      GroupByDayAt(u, day);
      var acc := GroupByDay(u);
      assert GroupByDay(s) == Bucket(acc, a);
      assert OnDay(s, day) == OnDay(u, day) + (if DatePart(a.date) == day then [a] else []);
      if DatePart(a.date) == day {
        match acc.Get(day)
        case Some(g) =>
          assert Bucket(acc, a) == acc.Set(day, g + [a]);
        case None =>
          assert Bucket(acc, a) == acc.Set(day, [a]);
          assert acc.Set(day, [a]).Get(day) == Some([a]);
          assert OnDay(u, day) == [];
          assert OnDay(s, day) == [a];
      } else {
        assert Bucket(acc, a).Get(day) == acc.Get(day);
        assert OnDay(s, day) == OnDay(u, day);
      }
    }
  }

  /** Days are listed in the order of their first activity in `s`. */
  lemma {:induction false} GroupByDayOrder(s: seq<Activity>)
    ensures DaysInFirstOrder(GroupByDay(s).keys, s)
  {
    if s != [] {
      var u, a := s[..|s| - 1], s[|s| - 1];
      GroupByDayOrder(u);
      assert s == u + [a];
      var acc, day := GroupByDay(u), DatePart(a.date);
      if acc.Get(day).None? {
        AbsentDayNotSeen(u, day);
        assert Bucket(acc, a).keys == acc.keys + [day];
        OrderNewDay(acc.keys, u, a);
      } else {
        assert Bucket(acc, a).keys == acc.keys;
        OrderSameDay(acc.keys, u, a);
      }
    }
  }

  /** Every listed day occurs in `s`, and the days are listed by their first position in `s`. */
  ghost predicate DaysInFirstOrder(days: seq<string>, s: seq<Activity>) {
    && (forall k :: k in days ==> FirstOnDay(s, k) < |s|)
    && (forall i, j :: 0 <= i < j < |days| ==> FirstOnDay(s, days[i]) < FirstOnDay(s, days[j]))
  }

  /** Appending an activity moves no earlier first position. */
  lemma {:induction false} FirstOnDayAppend(u: seq<Activity>, a: Activity, day: string)
    requires FirstOnDay(u, day) < |u|
    ensures FirstOnDay(u + [a], day) == FirstOnDay(u, day)
  {
    assert (u + [a])[..|u|] == u;
  }

  /** A day the index has no entry for occurs nowhere in `u`. */
  lemma {:induction false} AbsentDayNotSeen(u: seq<Activity>, day: string)
    requires GroupByDay(u).Get(day).None?
    ensures FirstOnDay(u, day) == |u|
  {
    GroupByDayAt(u, day);
    FirstOnDaySeen(u, day);
  }

  /** An activity on `day` puts something in the day's filter. */
  lemma {:induction false} FirstOnDaySeen(u: seq<Activity>, day: string)
    ensures FirstOnDay(u, day) < |u| ==> OnDay(u, day) != []
  {
    OnDayMembers(u, day);
    var p := FirstOnDay(u, day);
    if p < |u| {
      assert u[p] in u;
    }
  }

  /** Appending an activity keeps the order of the days already listed. */
  lemma {:induction false} OrderSameDay(days: seq<string>, u: seq<Activity>, a: Activity)
    requires DaysInFirstOrder(days, u)
    ensures DaysInFirstOrder(days, u + [a])
  {
    forall k | k in days ensures FirstOnDay(u + [a], k) == FirstOnDay(u, k) {
      FirstOnDayAppend(u, a, k);
    }
  }

  /** An activity on a day not seen before lists that day last. */
  lemma {:induction false} OrderNewDay(days: seq<string>, u: seq<Activity>, a: Activity)
    requires DaysInFirstOrder(days, u) && FirstOnDay(u, DatePart(a.date)) == |u|
    ensures DaysInFirstOrder(days + [DatePart(a.date)], u + [a])
  {
    var day := DatePart(a.date);
    var s, ds := u + [a], days + [day];
    OrderSameDay(days, u, a);
    assert FirstOnDay(s, day) == |u| by {
      assert s[..|u|] == u;
    }
    forall i, j | 0 <= i < j < |ds| ensures FirstOnDay(s, ds[i]) < FirstOnDay(s, ds[j]) {
      assert ds[i] == days[i] && ds[i] in days;
      if j == |days| {
        assert ds[j] == day;
      } else {
        assert ds[j] == days[j];
      }
    }
  }

  // ------------------------------------------------------------------
  // The entries of the index (`Object.entries`).
  // ------------------------------------------------------------------

  /** The activities of all groups, group after group. */
  function Flatten(gs: seq<DayGroup>): seq<Activity> {
    if gs == [] then [] else Flatten(gs[..|gs| - 1]) + gs[|gs| - 1].1
  }

  lemma {:induction false} FlattenAppend(a: seq<DayGroup>, b: seq<DayGroup>)
    ensures Flatten(a + b) == Flatten(a) + Flatten(b)
  {
    if b != [] {
      var c := a + b;
      assert c[..|c| - 1] == a + b[..|b| - 1];
      FlattenAppend(a, b[..|b| - 1]);
    } else {
      assert a + b == a;
    }
  }

  lemma {:induction false} FlattenSplit(gs: seq<DayGroup>, p: nat)
    requires p < |gs|
    ensures Flatten(gs) == Flatten(gs[..p]) + gs[p].1 + Flatten(gs[p + 1..])
  {
    var l, x, r := gs[..p], gs[p], gs[p + 1..];
    assert Flatten(l + [x]) == Flatten(l) + x.1 by {
      FlattenAppend(l, [x]);
      assert [x][..0] == [];
    }
    assert Flatten(gs) == Flatten(l + [x]) + Flatten(r) by {
      assert gs == (l + [x]) + r;
      FlattenAppend(l + [x], r);
    }
  }

  /** Flattening after replacing one group adds what the group gained. */
  lemma {:induction false} FlattenReplace(gs: seq<DayGroup>, p: nat, g: DayGroup, extra: seq<Activity>)
    requires p < |gs| && g.1 == gs[p].1 + extra
    ensures multiset(Flatten(gs[p := g])) == multiset(Flatten(gs)) + multiset(extra)
    ensures p == |gs| - 1 ==> Flatten(gs[p := g]) == Flatten(gs) + extra
  {
    var hs := gs[p := g];
    var l, r := Flatten(gs[..p]), Flatten(gs[p + 1..]);
    FlattenSplit(gs, p);
    FlattenSplit(hs, p);
    assert hs[..p] == gs[..p];
    assert hs[p + 1..] == gs[p + 1..];
    assert Flatten(hs) == l + gs[p].1 + extra + r by {
      assert l + g.1 == l + gs[p].1 + extra;
    }
    if p == |gs| - 1 {
      assert gs[p + 1..] == [];
    }
  }

  /** How one step of the `reduce` changes the entries: one group grows, or a new one is appended. */
  lemma {:induction false} BucketPairs(acc: DayIndex, a: Activity)
    requires acc.Valid()
    ensures var day := DatePart(a.date);
      match acc.Get(day)
      case None => Bucket(acc, a).Pairs() == acc.Pairs() + [(day, [a])]
      case Some(g) => (day in acc.keys &&
        Bucket(acc, a).Pairs() == acc.Pairs()[IndexOf(acc.keys, day) := (day, g + [a])])
  {
  }

  /** The groups together hold every activity of `s` exactly as often as `s` does. */
  lemma {:induction false} GroupByDayPartition(s: seq<Activity>)
    ensures multiset(Flatten(GroupByDay(s).Pairs())) == multiset(s)
  {
    if s != [] {
      var u, a := s[..|s| - 1], s[|s| - 1];
      assert s == u + [a];
      GroupByDayPartition(u);
      var acc := GroupByDay(u);
      BucketPairs(acc, a);
      match acc.Get(DatePart(a.date))
      case None =>
        FlattenAppend(acc.Pairs(), [(DatePart(a.date), [a])]);
        assert Flatten([(DatePart(a.date), [a])]) == [a] by {
          assert [(DatePart(a.date), [a])][..0] == [];
        }
      case Some(g) =>
        FlattenReplace(acc.Pairs(), IndexOf(acc.keys, DatePart(a.date)), (DatePart(a.date), g + [a]), [a]);
    }
  }

  /** The activities of each day form one run of `s`. */
  ghost predicate DaysContiguous(s: seq<Activity>) {
    forall i, j, k :: 0 <= i < j < k < |s| && DatePart(s[i].date) == DatePart(s[k].date) ==>
      DatePart(s[j].date) == DatePart(s[i].date)
  }

  /** When each day is one run of `s`, the flattened groups are `s` itself. */
  lemma {:induction false} GroupByDayContiguous(s: seq<Activity>)
    requires DaysContiguous(s)
    ensures Flatten(GroupByDay(s).Pairs()) == s
    ensures s != [] ==> LastDayIs(GroupByDay(s), DatePart(s[|s| - 1].date))
  {
    if s == [] {
      assert GroupByDay(s).Pairs() == [];
    } else {
      var u, a := s[..|s| - 1], s[|s| - 1];
      assert s == u + [a];
      ContiguousPrefix(u, a);
      GroupByDayContiguous(u);
      var acc := GroupByDay(u);
      if acc.Get(DatePart(a.date)).None? {
        ContiguousNewDay(acc, u, a);
      } else {
        LastRunDay(u, a);
        ContiguousSameDay(acc, u, a);
      }
    }
  }

  /** Dropping the last activity keeps each day one run. */
  lemma {:induction false} ContiguousPrefix(u: seq<Activity>, a: Activity)
    requires DaysContiguous(u + [a])
    ensures DaysContiguous(u)
  {
    var s := u + [a];
    forall i, j, k | 0 <= i < j < k < |u| && DatePart(u[i].date) == DatePart(u[k].date)
      ensures DatePart(u[j].date) == DatePart(u[i].date)
    {
      assert s[i] == u[i] && s[j] == u[j] && s[k] == u[k];
    }
  }

  /** The last day listed in the index is `day`. */
  ghost predicate LastDayIs(acc: DayIndex, day: string) {
    acc.keys != [] && acc.keys[|acc.keys| - 1] == day
  }

  lemma {:induction false} ContiguousNewDay(acc: DayIndex, u: seq<Activity>, a: Activity)
    requires acc.Valid() && Flatten(acc.Pairs()) == u
    requires acc.Get(DatePart(a.date)).None?
    ensures Flatten(Bucket(acc, a).Pairs()) == u + [a]
    ensures LastDayIs(Bucket(acc, a), DatePart(a.date))
  {
    var day := DatePart(a.date);
    BucketPairs(acc, a);
    FlattenAppend(acc.Pairs(), [(day, [a])]);
    assert Flatten([(day, [a])]) == [a] by { assert [(day, [a])][..0] == []; }
  }

  lemma {:induction false} ContiguousSameDay(acc: DayIndex, u: seq<Activity>, a: Activity)
    requires acc.Valid() && Flatten(acc.Pairs()) == u
    requires u != [] && LastDayIs(acc, DatePart(u[|u| - 1].date))
    requires DatePart(u[|u| - 1].date) == DatePart(a.date)
    requires acc.Get(DatePart(a.date)).Some?
    ensures Flatten(Bucket(acc, a).Pairs()) == u + [a]
    ensures LastDayIs(Bucket(acc, a), DatePart(a.date))
  {
    var day := DatePart(a.date);
    var g := acc.Get(day).value;
    var last := |acc.keys| - 1;
    assert IndexOf(acc.keys, day) == last;
    BucketPairs(acc, a);
    FlattenReplace(acc.Pairs(), last, (day, g + [a]), [a]);
  }

  /** An activity whose day already has a group extends the last run, so the last activity is on its day. */
  lemma {:induction false} LastRunDay(u: seq<Activity>, a: Activity)
    requires DaysContiguous(u + [a])
    requires GroupByDay(u).Get(DatePart(a.date)).Some?
    ensures u != [] && DatePart(u[|u| - 1].date) == DatePart(a.date)
  {
    var day := DatePart(a.date);
    GroupByDayAt(u, day);
    OnDayMembers(u, day);
    var f := FirstOnDay(u, day);
    assert f < |u| by {
      assert OnDay(u, day)[0] in u;
    }
    var s := u + [a];
    if f < |u| - 1 {
      assert DatePart(s[f].date) == DatePart(s[|s| - 1].date);
      assert s[|u| - 1] == u[|u| - 1];
    }
  }

  // ------------------------------------------------------------------
  // The projection.
  // ------------------------------------------------------------------

  /**
   * `groupActivitiesByDate(activities)`: sorts by timestamp, then files by calendar day.
   * The groups partition the input, each day appears once, each group holds exactly that
   * day's activities in timestamp order, and days come in the order of their earliest activity.
   */
  function GroupActivitiesByDate(activities: seq<Activity>, timeOf: string -> int): (r: seq<DayGroup>)
    ensures multiset(Flatten(r)) == multiset(activities)
    ensures forall i, j :: 0 <= i < j < |r| ==> r[i].0 != r[j].0
    ensures forall a :: a in activities ==> InGroupOfItsDay(r, a)
    ensures forall i :: 0 <= i < |r| ==> IsDayOf(r[i], SortByTime(activities, timeOf), timeOf)
    ensures forall i, j :: 0 <= i < j < |r| ==>
      FirstOnDay(SortByTime(activities, timeOf), r[i].0) < FirstOnDay(SortByTime(activities, timeOf), r[j].0)
    ensures DaysContiguous(SortByTime(activities, timeOf)) ==> Flatten(r) == SortByTime(activities, timeOf)
  {
    var sorted := SortByTime(activities, timeOf);
    var index := GroupByDay(sorted);
    GroupByDayPartition(sorted);
    GroupByDayOrder(sorted);
    GroupsCover(activities, sorted);
    GroupsAreDays(sorted, timeOf);
    ContiguousFlatten(sorted);
    index.Pairs()
  }

  /** `a` sits in the group of its own day. */
  ghost predicate InGroupOfItsDay(r: seq<DayGroup>, a: Activity) {
    exists i :: 0 <= i < |r| && r[i].0 == DatePart(a.date) && a in r[i].1
  }

  /** `g` is a non-empty group holding exactly the activities of `sorted` on its day, in timestamp order. */
  ghost predicate IsDayOf(g: DayGroup, sorted: seq<Activity>, timeOf: string -> int) {
    && g.1 != []
    && g.1 == OnDay(sorted, g.0)
    && (forall a :: a in g.1 ==> DatePart(a.date) == g.0)
    && SortedByTime(g.1, timeOf)
  }

  lemma {:induction false} ContiguousFlatten(sorted: seq<Activity>)
    ensures DaysContiguous(sorted) ==> Flatten(GroupByDay(sorted).Pairs()) == sorted
  {
    if DaysContiguous(sorted) {
      GroupByDayContiguous(sorted);
    }
  }

  lemma {:induction false} GroupsCover(activities: seq<Activity>, sorted: seq<Activity>)
    requires multiset(sorted) == multiset(activities)
    ensures forall a :: a in activities ==> InGroupOfItsDay(GroupByDay(sorted).Pairs(), a)
  {
    forall a | a in activities ensures InGroupOfItsDay(GroupByDay(sorted).Pairs(), a) {
      assert a in multiset(activities);
      assert a in multiset(sorted);
      GroupCovers(sorted, a);
    }
  }

  lemma {:induction false} GroupCovers(sorted: seq<Activity>, a: Activity)
    requires a in sorted
    ensures InGroupOfItsDay(GroupByDay(sorted).Pairs(), a)
  {
    var index := GroupByDay(sorted);
    var r := index.Pairs();
    var day := DatePart(a.date);
    GroupByDayAt(sorted, day);
    OnDayMembers(sorted, day);
    assert a in OnDay(sorted, day);
    var i := IndexOf(index.keys, day);
    assert r[i].0 == day && r[i].1 == OnDay(sorted, day);
  }

  lemma {:induction false} GroupsAreDays(sorted: seq<Activity>, timeOf: string -> int)
    requires SortedByTime(sorted, timeOf)
    ensures forall i :: 0 <= i < |GroupByDay(sorted).Pairs()| ==> IsDayOf(GroupByDay(sorted).Pairs()[i], sorted, timeOf)
  {
    var r := GroupByDay(sorted).Pairs();
    forall i | 0 <= i < |r| ensures IsDayOf(r[i], sorted, timeOf) {
      GroupByDayAt(sorted, r[i].0);
      OnDayMembers(sorted, r[i].0);
      OnDaySorted(sorted, r[i].0, timeOf);
    }
  }

  /**
   * The days of `activities` are intervals of time: an activity timed between two
   * activities of the same day is on that day too. This holds, for instance, when every
   * date carries the same UTC offset.
   */
  ghost predicate DaysAreIntervals(activities: seq<Activity>, timeOf: string -> int) {
    forall a, b, c ::
      (&& a in activities && b in activities && c in activities
       && timeOf(a.date) <= timeOf(b.date) <= timeOf(c.date)
       && DatePart(a.date) == DatePart(c.date))
      ==> DatePart(b.date) == DatePart(a.date)
  }

  /** When the activities' days are intervals of time, the flattened projection is the sorted list, so its timestamps never decrease. */
  lemma {:induction false} FlattenedIsSorted(activities: seq<Activity>, timeOf: string -> int)
    requires DaysAreIntervals(activities, timeOf)
    ensures Flatten(GroupActivitiesByDate(activities, timeOf)) == SortByTime(activities, timeOf)
    ensures SortedByTime(Flatten(GroupActivitiesByDate(activities, timeOf)), timeOf)
  {
    var sorted := SortByTime(activities, timeOf);
    assert DaysContiguous(sorted) by {
      forall i, j, k | 0 <= i < j < k < |sorted| && DatePart(sorted[i].date) == DatePart(sorted[k].date)
        ensures DatePart(sorted[j].date) == DatePart(sorted[i].date)
      {
        SortedFromInput(activities, sorted, sorted[i]);
        SortedFromInput(activities, sorted, sorted[j]);
        SortedFromInput(activities, sorted, sorted[k]);
        assert timeOf(sorted[i].date) <= timeOf(sorted[j].date) <= timeOf(sorted[k].date);
      }
    }
  }

  /** Every element of a permutation of `activities` is one of the activities. */
  lemma {:induction false} SortedFromInput(activities: seq<Activity>, sorted: seq<Activity>, x: Activity)
    requires multiset(sorted) == multiset(activities) && x in sorted
    ensures x in activities
  {
    assert x in multiset(sorted);
  }
}
