/**
Weighted build times (vllm/tools/report_build_time_ninja.py, `SummarizeEntries`).

A build step is charged, at every moment, the share that falls to it when the time is divided among all
steps running at that moment. The source computes the charges in one sweep over the sorted start and
stop events, keeping one running total and reading each charge off it as a difference. Here the charge
is defined directly, as a sum over the elementary segments between event times, and the sweep is
proved to compute it. Times are exact reals.
*/
module NinjaSweep {
  import opened NinjaLog
  import opened Sorting

  // ----- the direct definition -----

  /** `t` runs throughout the segment from `a` to `b`. */
  predicate Covers(t: Target, a: real, b: real) {
    t.start <= a && b <= t.end
  }

  /** How many steps run throughout the segment. */
  function Running(entries: seq<Target>, a: real, b: real): nat {
    if entries == [] then 0
    else Running(entries[..|entries| - 1], a, b) + (if Covers(entries[|entries| - 1], a, b) then 1 else 0)
  }

  /** The part of a segment that falls to each of `n` running steps. */
  function Share(a: real, b: real, n: nat): real {
    if n == 0 then 0.0 else (b - a) / n as real
  }

  /** The charge of `t` over the first segments, up to `cuts[k]`. */
  function ChargeUpTo(entries: seq<Target>, cuts: seq<real>, t: Target, k: nat): real
    requires k < |cuts| || k == 0
  {
    if k == 0 then 0.0
    else
      var a, b := cuts[k - 1], cuts[k];
      ChargeUpTo(entries, cuts, t, k - 1) + (if Covers(t, a, b) then Share(a, b, Running(entries, a, b)) else 0.0)
  }

  /** The charge over all segments. */
  function ChargeOn(entries: seq<Target>, cuts: seq<real>, t: Target): real {
    if cuts == [] then 0.0 else ChargeUpTo(entries, cuts, t, |cuts| - 1)
  }

  /** Time up to `cuts[k]` during which something runs. */
  function BusyUpTo(entries: seq<Target>, cuts: seq<real>, k: nat): real
    requires k < |cuts| || k == 0
  {
    if k == 0 then 0.0
    else
      BusyUpTo(entries, cuts, k - 1)
      + (if Running(entries, cuts[k - 1], cuts[k]) > 0 then cuts[k] - cuts[k - 1] else 0.0)
  }

  predicate NotLater(a: real, b: real) {
    a <= b
  }

  predicate Increasing(cuts: seq<real>) {
    forall i, j {:trigger NotLater(cuts[i], cuts[j])} | 0 <= i <= j < |cuts| :: NotLater(cuts[i], cuts[j])
  }

  predicate IsEventTime(entries: seq<Target>, x: real) {
    exists t | t in entries :: x == t.start || x == t.end
  }

  /** The start and end times of the entries in order. Consecutive ones delimit the elementary segments. */
  ghost predicate Grid(entries: seq<Target>, cuts: seq<real>) {
    && Increasing(cuts)
    && |cuts| == 2 * |entries|
    && (forall t | t in entries :: t.start in cuts && t.end in cuts)
    && (forall i {:trigger IsEventTime(entries, cuts[i])} | 0 <= i < |cuts| :: IsEventTime(entries, cuts[i]))
  }

  // ----- bounds -----

  function Clamp(x: real, lo: real, hi: real): real {
    if x < lo then lo else if hi < x then hi else x
  }

  function Length(cuts: seq<real>, t: Target, k: nat): real
    requires k < |cuts| || k == 0
  {
    if k == 0 then 0.0
    else Length(cuts, t, k - 1) + (if Covers(t, cuts[k - 1], cuts[k]) then cuts[k] - cuts[k - 1] else 0.0)
  }

  /** The segments inside [start, end] add up to the part of it that lies before `cuts[k]`. */
  lemma {:induction false} LengthIsClamped(cuts: seq<real>, t: Target, k: nat)
    requires k < |cuts| && Increasing(cuts) && t.start in cuts && t.end in cuts && t.start <= t.end
    ensures Length(cuts, t, k) == Clamp(cuts[k], t.start, t.end) - Clamp(cuts[0], t.start, t.end)
  {
    if k > 0 {
      LengthIsClamped(cuts, t, k - 1);
      NotBetween(cuts, k, t.start);
      NotBetween(cuts, k, t.end);
    }
  }

  lemma NotBetween(cuts: seq<real>, k: nat, x: real)
    requires 0 < k < |cuts| && Increasing(cuts) && x in cuts
    ensures cuts[k - 1] <= cuts[k] && (x <= cuts[k - 1] || cuts[k] <= x)
  {
    var i :| 0 <= i < |cuts| && cuts[i] == x;
    assert NotLater(cuts[k - 1], cuts[k]);
    assert i <= k - 1 ==> NotLater(cuts[i], cuts[k - 1]);
    assert k <= i ==> NotLater(cuts[k], cuts[i]);
  }

  lemma LengthIsDuration(entries: seq<Target>, cuts: seq<real>, t: Target)
    requires Grid(entries, cuts) && t in entries && t.start <= t.end
    ensures cuts != [] && Length(cuts, t, |cuts| - 1) == t.Duration()
  {
    LengthIsClamped(cuts, t, |cuts| - 1);
    ExtremeCuts(cuts, t.start);
    ExtremeCuts(cuts, t.end);
  }

  lemma ExtremeCuts(cuts: seq<real>, x: real)
    requires Increasing(cuts) && x in cuts
    ensures cuts[0] <= x <= cuts[|cuts| - 1]
  {
    var i :| 0 <= i < |cuts| && cuts[i] == x;
    assert NotLater(cuts[0], cuts[i]) && NotLater(cuts[i], cuts[|cuts| - 1]);
  }

  lemma ShareBounds(a: real, b: real, n: nat)
    requires a <= b && n > 0
    ensures 0.0 <= Share(a, b, n) <= b - a
  {
    var m := n as real;
    assert m >= 1.0;
    var q := (b - a) / m;
    assert q * m == b - a;
    assert q >= 0.0;
    assert q * m >= q * 1.0;
  }

  lemma {:induction false} CoveredIsCounted(entries: seq<Target>, t: Target, a: real, b: real)
    requires t in entries && Covers(t, a, b)
    ensures Running(entries, a, b) > 0
  {
    if t != entries[|entries| - 1] {
      CoveredIsCounted(entries[..|entries| - 1], t, a, b);
    }
  }

  lemma {:induction false} ChargeBoundsUpTo(entries: seq<Target>, cuts: seq<real>, t: Target, k: nat)
    requires k < |cuts| && Increasing(cuts) && t in entries
    ensures 0.0 <= ChargeUpTo(entries, cuts, t, k) <= Length(cuts, t, k)
  {
    if k > 0 {
      ChargeBoundsUpTo(entries, cuts, t, k - 1);
      var a, b := cuts[k - 1], cuts[k];
      assert NotLater(cuts[k - 1], cuts[k]);
      if Covers(t, a, b) {
        CoveredIsCounted(entries, t, a, b);
        ShareBounds(a, b, Running(entries, a, b));
      }
    }
  }

  // ----- conservation -----

  function TotalChargeUpTo(part: seq<Target>, entries: seq<Target>, cuts: seq<real>, k: nat): real
    requires k < |cuts| || k == 0
  {
    if part == [] then 0.0
    else
      TotalChargeUpTo(part[..|part| - 1], entries, cuts, k) + ChargeUpTo(entries, cuts, part[|part| - 1], k)
  }

  /** `c` added `n` times. */
  function Repeated(n: nat, c: real): real {
    if n == 0 then 0.0 else Repeated(n - 1, c) + c
  }

  lemma {:induction false} RepeatedIsProduct(n: nat, c: real)
    ensures Repeated(n, c) == n as real * c
  {
    if n > 0 {
      RepeatedIsProduct(n - 1, c);
      var m := (n - 1) as real;
      assert n as real == m + 1.0 && (m + 1.0) * c == m * c + c;
    }
  }

  lemma SharesAddUp(a: real, b: real, n: nat)
    ensures Repeated(n, Share(a, b, n)) == if n > 0 then b - a else 0.0
  {
    RepeatedIsProduct(n, Share(a, b, n));
  }

  /** One more segment adds its share once for every step of `part` running in it. */
  lemma {:induction false} TotalChargeStep(part: seq<Target>, entries: seq<Target>, cuts: seq<real>, k: nat)
    requires 0 < k < |cuts|
    ensures var a, b := cuts[k - 1], cuts[k];
            TotalChargeUpTo(part, entries, cuts, k)
            == TotalChargeUpTo(part, entries, cuts, k - 1)
               + Repeated(Running(part, a, b), Share(a, b, Running(entries, a, b)))
  {
    if part != [] {
      TotalChargeStep(part[..|part| - 1], entries, cuts, k);
    }
  }

  lemma {:induction false} ZeroCharge(part: seq<Target>, entries: seq<Target>, cuts: seq<real>)
    ensures TotalChargeUpTo(part, entries, cuts, 0) == 0.0
  {
    if part != [] {
      ZeroCharge(part[..|part| - 1], entries, cuts);
    }
  }

  lemma {:induction false} ConservationUpTo(entries: seq<Target>, cuts: seq<real>, k: nat)
    requires k < |cuts|
    ensures TotalChargeUpTo(entries, entries, cuts, k) == BusyUpTo(entries, cuts, k)
  {
    if k == 0 {
      ZeroCharge(entries, entries, cuts);
    } else {
      ConservationUpTo(entries, cuts, k - 1);
      TotalChargeStep(entries, entries, cuts, k);
      SharesAddUp(cuts[k - 1], cuts[k], Running(entries, cuts[k - 1], cuts[k]));
    }
  }

  function TotalDuration(part: seq<Target>): real {
    if part == [] then 0.0 else TotalDuration(part[..|part| - 1]) + part[|part| - 1].Duration()
  }

  /** Running count times length, over the first segments. */
  function LoadUpTo(entries: seq<Target>, cuts: seq<real>, k: nat): real
    requires k < |cuts| || k == 0
  {
    if k == 0 then 0.0
    else LoadUpTo(entries, cuts, k - 1) + Repeated(Running(entries, cuts[k - 1], cuts[k]), cuts[k] - cuts[k - 1])
  }

  /** One entry more adds its length to the load. */
  lemma {:induction false} LoadStep(part: seq<Target>, cuts: seq<real>, k: nat)
    requires part != [] && (k < |cuts| || k == 0)
    ensures LoadUpTo(part, cuts, k) == LoadUpTo(part[..|part| - 1], cuts, k) + Length(cuts, part[|part| - 1], k)
  {
    if k > 0 {
      LoadStep(part, cuts, k - 1);
    }
  }

  lemma {:induction false} NoLoad(cuts: seq<real>, k: nat)
    requires k < |cuts| || k == 0
    ensures LoadUpTo([], cuts, k) == 0.0
  {
    if k > 0 {
      NoLoad(cuts, k - 1);
    }
  }

  lemma {:induction false} DurationIsLoad(part: seq<Target>, entries: seq<Target>, cuts: seq<real>)
    requires Grid(entries, cuts) && cuts != [] && forall t | t in part :: t in entries && t.start <= t.end
    ensures TotalDuration(part) == LoadUpTo(part, cuts, |cuts| - 1)
  {
    if part == [] {
      NoLoad(cuts, |cuts| - 1);
    } else {
      DurationIsLoad(part[..|part| - 1], entries, cuts);
      LoadStep(part, cuts, |cuts| - 1);
      LengthIsDuration(entries, cuts, part[|part| - 1]);
    }
  }

  // ----- the whole span -----

  /** Some segment of positive length in which nothing runs. */
  predicate IdleAt(entries: seq<Target>, cuts: seq<real>, k: nat)
    requires 0 < k < |cuts|
  {
    cuts[k - 1] < cuts[k] && Running(entries, cuts[k - 1], cuts[k]) == 0
  }

  lemma {:induction false} BusyUpToSpan(entries: seq<Target>, cuts: seq<real>, k: nat)
    requires k < |cuts| && Increasing(cuts)
    ensures BusyUpTo(entries, cuts, k) <= cuts[k] - cuts[0]
    ensures BusyUpTo(entries, cuts, k) == cuts[k] - cuts[0] <==> forall i | 0 < i <= k :: !IdleAt(entries, cuts, i)
  {
    if k > 0 {
      BusyUpToSpan(entries, cuts, k - 1);
      assert NotLater(cuts[k - 1], cuts[k]);
      assert !IdleAt(entries, cuts, k) <==>
        cuts[k - 1] == cuts[k] || Running(entries, cuts[k - 1], cuts[k]) > 0;
    }
  }

  predicate IsEarliest(entries: seq<Target>, x: real) {
    (exists t | t in entries :: t.start == x) && forall t | t in entries :: x <= t.start
  }

  predicate IsLatest(entries: seq<Target>, x: real) {
    (exists t | t in entries :: t.end == x) && forall t | t in entries :: t.end <= x
  }

  lemma SpanIsGrid(entries: seq<Target>, cuts: seq<real>, earliest: real, latest: real)
    requires Grid(entries, cuts) && entries != [] && forall t | t in entries :: t.start <= t.end
    requires IsEarliest(entries, earliest) && IsLatest(entries, latest)
    ensures cuts != [] && cuts[0] == earliest && cuts[|cuts| - 1] == latest
  {
    assert IsEventTime(entries, cuts[0]) && IsEventTime(entries, cuts[|cuts| - 1]);
    ExtremeCuts(cuts, earliest);
    ExtremeCuts(cuts, latest);
  }

  // ----- events -----

  datatype Kind = Start | Stop
  datatype Event = Event(time: real, kind: Kind, target: Target)

  function StartEvent(t: Target): Event {
    Event(t.start, Start, t)
  }

  function StopEvent(t: Target): Event {
    Event(t.end, Stop, t)
  }

  function TimeOf(e: Event): real {
    e.time
  }

  function KeyOf(e: Event): (real, Kind) {
    (e.time, e.kind)
  }

  /** Events by time; at the same time "start" comes before "stop". */
  predicate KeyLeq(a: (real, Kind), b: (real, Kind)) {
    a.0 < b.0 || (a.0 == b.0 && (a.1.Start? || b.1.Stop?))
  }

  predicate IsEventOf(entries: seq<Target>, e: Event) {
    e.target in entries && (e == StartEvent(e.target) || e == StopEvent(e.target))
  }

  /** Both events of every entry, in the order of the entries. */
  function Events(entries: seq<Target>): seq<Event> {
    Both(StartEvent, StopEvent, entries)
  }

  predicate InOrder(e: Event, f: Event) {
    KeyLeq(KeyOf(e), KeyOf(f))
  }

  /** The events of the entries, each once, in an order the sort may produce. */
  ghost predicate Schedule(entries: seq<Target>, events: seq<Event>) {
    && |events| == 2 * |entries|
    && (forall i {:trigger IsEventOf(entries, events[i])} | 0 <= i < |events| :: IsEventOf(entries, events[i]))
    && (forall t | t in entries :: StartEvent(t) in events && StopEvent(t) in events)
    && Distinct(events)
    && (forall i, j {:trigger InOrder(events[i], events[j])} | 0 <= i < j < |events| :: InOrder(events[i], events[j]))
  }

  lemma {:induction false} EventsDistinct(entries: seq<Target>)
    requires Distinct(entries)
    ensures Distinct(Events(entries))
  {
    if entries != [] {
      var front, last := entries[..|entries| - 1], entries[|entries| - 1];
      EventsDistinct(front);
      EventsOfEntries(front, StartEvent(last));
      EventsOfEntries(front, StopEvent(last));
    }
  }

  lemma EventsOfEntries(entries: seq<Target>, e: Event)
    ensures e in Events(entries) <==> IsEventOf(entries, e)
  {
    BothMembers(StartEvent, StopEvent, entries, e);
    if IsEventOf(entries, e) {
      assert e.target in entries;
    }
  }

  lemma EventsOrdered()
    ensures TotalOrder(KeyLeq) && Antisymmetric(KeyLeq)
  {
  }

  /** Whatever way the sort breaks ties, it yields a schedule. */
  lemma SortedIsSchedule(entries: seq<Target>, events: seq<Event>)
    requires Distinct(entries)
    requires multiset(events) == multiset(Events(entries)) && Sorted(KeyOf, KeyLeq, events)
    ensures Schedule(entries, events)
  {
    EventsDistinct(entries);
    PermutedDistinct(Events(entries), events);
    PermutedLength(events, Events(entries));
    forall i | 0 <= i < |events| ensures IsEventOf(entries, events[i]) {
      PermutedMember(events, Events(entries), events[i]);
      EventsOfEntries(entries, events[i]);
    }
    forall t | t in entries ensures StartEvent(t) in events && StopEvent(t) in events {
      PermutedMember(events, Events(entries), StartEvent(t));
      PermutedMember(events, Events(entries), StopEvent(t));
      EventsOfEntries(entries, StartEvent(t));
      EventsOfEntries(entries, StopEvent(t));
    }
    forall i, j | 0 <= i < j < |events| ensures InOrder(events[i], events[j]) {
      assert KeyLeq(KeyOf(events[i]), KeyOf(events[j]));
    }
    EventsLength(entries);
  }

  lemma {:induction false} EventsLength(entries: seq<Target>)
    ensures |Events(entries)| == 2 * |entries|
  {
    if entries != [] {
      EventsLength(entries[..|entries| - 1]);
    }
  }

  /** The times of the schedule that the stable sort yields. */
  function Cuts(entries: seq<Target>): seq<real> {
    Map(TimeOf, Sort(KeyOf, KeyLeq, Events(entries)))
  }

  lemma ScheduleIsGrid(entries: seq<Target>, events: seq<Event>)
    requires Schedule(entries, events)
    ensures Grid(entries, Map(TimeOf, events))
  {
    var cuts := Map(TimeOf, events);
    forall i, j | 0 <= i <= j < |cuts| ensures NotLater(cuts[i], cuts[j]) {
      if i < j { assert InOrder(events[i], events[j]); }
    }
    forall t | t in entries ensures t.start in cuts && t.end in cuts {
      var s :| 0 <= s < |events| && events[s] == StartEvent(t);
      var e :| 0 <= e < |events| && events[e] == StopEvent(t);
      assert cuts[s] == t.start && cuts[e] == t.end;
    }
    forall i | 0 <= i < |cuts| ensures IsEventTime(entries, cuts[i]) {
      assert IsEventOf(entries, events[i]);
    }
  }

  /** All schedules of the same entries, in whatever order the entries are listed, go through the same times. */
  lemma SameTimes(entries: seq<Target>, events: seq<Event>, others: seq<Target>, otherEvents: seq<Event>)
    requires Schedule(entries, events) && Schedule(others, otherEvents)
    requires (forall t | t in entries :: t in others) && (forall t | t in others :: t in entries)
    ensures Map(TimeOf, events) == Map(TimeOf, otherEvents)
  {
    SameEvents(entries, events, others, otherEvents);
    SameEvents(others, otherEvents, entries, events);
    SameMembersPermuted(events, otherEvents);
    EventsOrdered();
    ScheduleIsSorted(entries, events);
    ScheduleIsSorted(others, otherEvents);
    SortedKeysUnique(KeyOf, KeyLeq, events, otherEvents);
    forall i | 0 <= i < |events| ensures events[i].time == otherEvents[i].time {
      assert Map(KeyOf, events)[i] == Map(KeyOf, otherEvents)[i];
    }
    PermutedLength(events, otherEvents);
  }

  lemma SameEvents(entries: seq<Target>, events: seq<Event>, others: seq<Target>, otherEvents: seq<Event>)
    requires Schedule(entries, events) && Schedule(others, otherEvents)
    requires forall t | t in entries :: t in others
    ensures forall e | e in events :: e in otherEvents
  {
    forall e | e in events ensures e in otherEvents {
      var i :| 0 <= i < |events| && events[i] == e;
      assert IsEventOf(entries, events[i]);
    }
  }

  lemma ScheduleIsSorted(entries: seq<Target>, events: seq<Event>)
    requires Schedule(entries, events)
    ensures Sorted(KeyOf, KeyLeq, events)
  {
    forall i, j | 0 <= i < j < |events| ensures KeyLeq(KeyOf(events[i]), KeyOf(events[j])) {
      assert InOrder(events[i], events[j]);
    }
  }

  // ----- which steps run -----

  function Started(events: seq<Event>, k: nat): set<Target>
    requires k <= |events|
  {
    set i | 0 <= i < k && events[i].kind.Start? :: events[i].target
  }

  function Stopped(events: seq<Event>, k: nat): set<Target>
    requires k <= |events|
  {
    set i | 0 <= i < k && events[i].kind.Stop? :: events[i].target
  }

  /** Between two different event times, the steps that have started and not stopped are those that run throughout. */
  lemma RunningIsCovering(entries: seq<Target>, events: seq<Event>, k: nat, t: Target)
    requires Schedule(entries, events) && 0 < k < |events| && t in entries
    requires events[k - 1].time < events[k].time
    ensures t in Started(events, k) - Stopped(events, k) <==> Covers(t, events[k - 1].time, events[k].time)
  {
    var s :| 0 <= s < |events| && events[s] == StartEvent(t);
    var e :| 0 <= e < |events| && events[e] == StopEvent(t);
    StartedAt(entries, events, k, t, s);
    StoppedAt(entries, events, k, t, e);
    assert s < k - 1 ==> InOrder(events[s], events[k - 1]);
    assert e < k - 1 ==> InOrder(events[e], events[k - 1]);
    assert k < s ==> InOrder(events[k], events[s]);
    assert k < e ==> InOrder(events[k], events[e]);
  }

  lemma StartedAt(entries: seq<Target>, events: seq<Event>, k: nat, t: Target, s: nat)
    requires Schedule(entries, events) && k <= |events| && s < |events| && events[s] == StartEvent(t)
    ensures t in Started(events, k) <==> s < k
  {
    if t in Started(events, k) {
      var i :| 0 <= i < k && events[i].kind.Start? && events[i].target == t;
      assert IsEventOf(entries, events[i]) && events[i] == StartEvent(t);
    }
  }

  lemma StoppedAt(entries: seq<Target>, events: seq<Event>, k: nat, t: Target, e: nat)
    requires Schedule(entries, events) && k <= |events| && e < |events| && events[e] == StopEvent(t)
    ensures t in Stopped(events, k) <==> e < k
  {
    if t in Stopped(events, k) {
      var i :| 0 <= i < k && events[i].kind.Stop? && events[i].target == t;
      assert IsEventOf(entries, events[i]) && events[i] == StopEvent(t);
    }
  }

  lemma StartedAreEntries(entries: seq<Target>, events: seq<Event>, k: nat)
    requires Schedule(entries, events) && k <= |events|
    ensures forall t | t in Started(events, k) :: t in entries
  {
    forall i | 0 <= i < k ensures events[i].target in entries {
      assert IsEventOf(entries, events[i]);
    }
  }

  function Covering(entries: seq<Target>, a: real, b: real): set<Target> {
    set t | t in entries && Covers(t, a, b)
  }

  lemma {:induction false} CountIsCardinality(entries: seq<Target>, a: real, b: real)
    requires Distinct(entries)
    ensures |Covering(entries, a, b)| == Running(entries, a, b)
  {
    if entries != [] {
      var front, last := entries[..|entries| - 1], entries[|entries| - 1];
      assert entries == front + [last];
      assert last !in front;
      CountIsCardinality(front, a, b);
      if Covers(last, a, b) {
        assert Covering(entries, a, b) == Covering(front, a, b) + {last};
      } else {
        assert Covering(entries, a, b) == Covering(front, a, b);
      }
    }
  }

  /** One segment charges its share to the running steps, and nothing to the others. */
  lemma SegmentStep(entries: seq<Target>, events: seq<Event>, cuts: seq<real>, k: nat, t: Target)
    requires Distinct(entries) && Schedule(entries, events) && cuts == Map(TimeOf, events)
    requires 0 < k < |events| && t in entries
    ensures var running := Started(events, k) - Stopped(events, k);
            ChargeUpTo(entries, cuts, t, k)
            == ChargeUpTo(entries, cuts, t, k - 1)
               + (if t in running then Share(cuts[k - 1], cuts[k], |running|) else 0.0)
  {
    var a, b := cuts[k - 1], cuts[k];
    var running := Started(events, k) - Stopped(events, k);
    assert InOrder(events[k - 1], events[k]);
    if a < b {
      StartedAreEntries(entries, events, k);
      forall u | u in entries ensures u in running <==> Covers(u, a, b) {
        RunningIsCovering(entries, events, k, u);
      }
      assert running == Covering(entries, a, b);
      CountIsCardinality(entries, a, b);
    } else {
      assert Share(a, b, |running|) == 0.0 && Share(a, b, Running(entries, a, b)) == 0.0;
    }
  }

  /** Once a step has stopped, nothing more is charged to it. */
  lemma {:induction false} ChargeIsFinal(entries: seq<Target>, events: seq<Event>, cuts: seq<real>, k: nat, m: nat, t: Target)
    requires Distinct(entries) && Schedule(entries, events) && cuts == Map(TimeOf, events)
    requires k <= m < |events| && t in entries && events[k] == StopEvent(t)
    ensures ChargeUpTo(entries, cuts, t, m) == ChargeUpTo(entries, cuts, t, k)
    decreases m
  {
    if k < m {
      ChargeIsFinal(entries, events, cuts, k, m - 1, t);
      SegmentStep(entries, events, cuts, m, t);
      StoppedAt(entries, events, m, t, k);
    }
  }

  lemma StepSets(events: seq<Event>, k: nat)
    requires k < |events|
    ensures Started(events, k + 1)
            == if events[k].kind.Start? then Started(events, k) + {events[k].target} else Started(events, k)
    ensures Stopped(events, k + 1)
            == if events[k].kind.Stop? then Stopped(events, k) + {events[k].target} else Stopped(events, k)
  {
  }

  // ----- the sweep -----

  /**
  The sweep has passed `k` events and accumulated up to `cuts[m]`: the running total minus what it was when a
  step started is the step's charge so far, and the steps that have stopped hold their final charge.
  */
  ghost predicate Sweeping(entries: seq<Target>, events: seq<Event>, cuts: seq<real>, k: nat, m: nat,
                           runningTasks: map<Target, real>, lastWeightedTime: real)
    requires k <= |events| && (m < |cuts| || m == 0)
    reads entries
  {
    && runningTasks.Keys == Started(events, k) - Stopped(events, k)
    && (forall t | t in runningTasks :: lastWeightedTime - runningTasks[t] == ChargeUpTo(entries, cuts, t, m))
    && (forall t | t in entries && t !in Started(events, k) :: ChargeUpTo(entries, cuts, t, m) == 0.0)
    && (forall t | t in entries && t in Stopped(events, k) ::
          t in Started(events, k) && t.start <= t.end && t.weightedDuration == ChargeOn(entries, cuts, t))
  }

  /** The time since the last event is shared out. */
  lemma Accumulate(entries: seq<Target>, events: seq<Event>, cuts: seq<real>, k: nat,
                   runningTasks: map<Target, real>, lastWeightedTime: real) returns (share: real)
    requires Distinct(entries) && Schedule(entries, events) && cuts == Map(TimeOf, events) && 0 < k < |events|
    requires Sweeping(entries, events, cuts, k, k - 1, runningTasks, lastWeightedTime)
    ensures share == Share(cuts[k - 1], cuts[k], |runningTasks|)
    ensures Sweeping(entries, events, cuts, k, k, runningTasks, lastWeightedTime + share)
  {
    share := Share(cuts[k - 1], cuts[k], |runningTasks|);
    assert |runningTasks| == |runningTasks.Keys|;
    StartedAreEntries(entries, events, k);
    forall t | t in entries
      ensures ChargeUpTo(entries, cuts, t, k)
              == ChargeUpTo(entries, cuts, t, k - 1)
                 + (if t in runningTasks then share else 0.0)
    {
      SegmentStep(entries, events, cuts, k, t);
    }
  }

  /** A step that stops while it runs gets its whole charge; it runs unless its log entry ends before it starts. */
  lemma StopReadsCharge(entries: seq<Target>, events: seq<Event>, cuts: seq<real>, k: nat,
                        runningTasks: map<Target, real>, lastWeightedTime: real)
    requires Distinct(entries) && Schedule(entries, events) && cuts == Map(TimeOf, events)
    requires k < |events| && events[k].kind.Stop?
    requires Sweeping(entries, events, cuts, k, k, runningTasks, lastWeightedTime)
    ensures var t := events[k].target;
            && t in entries && t !in Stopped(events, k)
            && (t in runningTasks <==> t.start <= t.end)
            && (t in runningTasks ==> lastWeightedTime - runningTasks[t] == ChargeOn(entries, cuts, t))
  {
    var t := events[k].target;
    assert IsEventOf(entries, events[k]);
    StoppedAt(entries, events, k, t, k);
    var s :| 0 <= s < |events| && events[s] == StartEvent(t);
    StartedAt(entries, events, k, t, s);
    assert s < k ==> InOrder(events[s], events[k]);
    assert k < s ==> InOrder(events[k], events[s]);
    if t in runningTasks {
      ChargeIsFinal(entries, events, cuts, k, |events| - 1, t);
    }
  }

  lemma AfterStart(entries: seq<Target>, events: seq<Event>, cuts: seq<real>, k: nat,
                   runningTasks: map<Target, real>, lastWeightedTime: real)
    requires Schedule(entries, events) && k < |events| && |cuts| == |events| && events[k].kind.Start?
    requires Sweeping(entries, events, cuts, k, k, runningTasks, lastWeightedTime)
    ensures Sweeping(entries, events, cuts, k + 1, k, runningTasks[events[k].target := lastWeightedTime], lastWeightedTime)
  {
    assert IsEventOf(entries, events[k]);
    StartedAt(entries, events, k, events[k].target, k);
    StepSets(events, k);
  }

  /** The charges of those entries that are in `done`. */
  function TotalDone(part: seq<Target>, entries: seq<Target>, cuts: seq<real>, done: set<Target>): real {
    if part == [] then 0.0
    else
      TotalDone(part[..|part| - 1], entries, cuts, done)
      + (if part[|part| - 1] in done then ChargeOn(entries, cuts, part[|part| - 1]) else 0.0)
  }

  lemma {:induction false} OneMoreDone(part: seq<Target>, entries: seq<Target>, cuts: seq<real>, done: set<Target>, t: Target)
    requires Distinct(part) && t !in done
    ensures TotalDone(part, entries, cuts, done + {t})
            == TotalDone(part, entries, cuts, done) + (if t in part then ChargeOn(entries, cuts, t) else 0.0)
  {
    if part != [] {
      var front, last := part[..|part| - 1], part[|part| - 1];
      assert part == front + [last];
      assert last !in front;
      OneMoreDone(front, entries, cuts, done, t);
    }
  }

  lemma {:induction false} AllDone(part: seq<Target>, entries: seq<Target>, cuts: seq<real>, done: set<Target>)
    requires cuts != []
    ensures (forall t | t in part :: t in done) ==>
              TotalDone(part, entries, cuts, done) == TotalChargeUpTo(part, entries, cuts, |cuts| - 1)
    ensures done == {} ==> TotalDone(part, entries, cuts, done) == 0.0
  {
    if part != [] {
      AllDone(part[..|part| - 1], entries, cuts, done);
    }
  }

  lemma EveryoneStopped(entries: seq<Target>, events: seq<Event>)
    requires Schedule(entries, events)
    ensures forall t | t in entries :: t in Stopped(events, |events|)
    ensures Started(events, |events|) <= Stopped(events, |events|)
  {
    StartedAreEntries(entries, events, |events|);
    forall t | t in entries ensures t in Stopped(events, |events|) {
      var e :| 0 <= e < |events| && events[e] == StopEvent(t);
      assert events[e].kind.Stop?;
    }
  }

  /** Adds the time since the last event, divided by the number of running steps. */
  method AddShare(weightedTime: real, lastTime: real, time: real, numRunning: nat) returns (r: real)
    ensures r == weightedTime + Share(lastTime, time, numRunning)
  {
    r := weightedTime;
    if numRunning > 0 {
      r := r + (time - lastTime) / numRunning as real;
    }
  }

  /** Accumulates weighted time up to event `k`. */
  method Advance(entries: seq<Target>, events: seq<Event>, k: nat, runningTasks: map<Target, real>,
                 lastTime: real, lastWeightedTime: real, ghost cuts: seq<real>)
    returns (lastWeightedTime': real)
    requires Distinct(entries) && Schedule(entries, events) && cuts == Map(TimeOf, events) && k < |events|
    requires lastTime == cuts[if k == 0 then 0 else k - 1] && (k == 0 ==> runningTasks == map[])
    requires Sweeping(entries, events, cuts, k, if k == 0 then 0 else k - 1, runningTasks, lastWeightedTime)
    ensures Sweeping(entries, events, cuts, k, k, runningTasks, lastWeightedTime')
  {
    lastWeightedTime' := AddShare(lastWeightedTime, lastTime, events[k].time, |runningTasks|);
    if k > 0 {
      ghost var share := Accumulate(entries, events, cuts, k, runningTasks, lastWeightedTime);
    }
  }

  /** The stop event of a running step: its weighted duration is read off the running total. */
  method Finish(entries: seq<Target>, events: seq<Event>, k: nat, runningTasks: map<Target, real>,
                lastWeightedTime: real, ghost cuts: seq<real>)
    returns (weightedDuration: real, runningTasks': map<Target, real>)
    requires Distinct(entries) && Schedule(entries, events) && cuts == Map(TimeOf, events)
    requires k < |events| && events[k].kind.Stop? && events[k].target in runningTasks
    requires Sweeping(entries, events, cuts, k, k, runningTasks, lastWeightedTime)
    modifies entries
    ensures weightedDuration == ChargeOn(entries, cuts, events[k].target)
    ensures Sweeping(entries, events, cuts, k + 1, k, runningTasks', lastWeightedTime)
  {
    var target := events[k].target;
    StopReadsCharge(entries, events, cuts, k, runningTasks, lastWeightedTime);
    StepSets(events, k);
    weightedDuration := lastWeightedTime - runningTasks[target];
    target.SetWeightedDuration(weightedDuration);
    runningTasks' := runningTasks - {target};
  }

  /** The body of the loop over the events; not `ok` when a stop event finds no running step. */
  method PassEvent(entries: seq<Target>, events: seq<Event>, k: nat, runningTasks: map<Target, real>,
                   lastTime: real, lastWeightedTime: real, weightedTotal: real, ghost cuts: seq<real>)
    returns (ok: bool, runningTasks': map<Target, real>, lastWeightedTime': real, weightedTotal': real)
    requires Distinct(entries) && Schedule(entries, events) && cuts == Map(TimeOf, events) && k < |events|
    requires lastTime == cuts[if k == 0 then 0 else k - 1] && (k == 0 ==> runningTasks == map[])
    requires Sweeping(entries, events, cuts, k, if k == 0 then 0 else k - 1, runningTasks, lastWeightedTime)
    requires weightedTotal == TotalDone(entries, entries, cuts, Stopped(events, k))
    modifies entries
    ensures events[k].target in entries
    ensures ok <==> (events[k].kind.Stop? ==> events[k].target.start <= events[k].target.end)
    ensures ok ==> Sweeping(entries, events, cuts, k + 1, k, runningTasks', lastWeightedTime')
    ensures ok ==> weightedTotal' == TotalDone(entries, entries, cuts, Stopped(events, k + 1))
  {
    ok, runningTasks', weightedTotal' := true, runningTasks, weightedTotal;
    var target := events[k].target;
    assert IsEventOf(entries, events[k]);
    lastWeightedTime' := Advance(entries, events, k, runningTasks, lastTime, lastWeightedTime, cuts);
    StepSets(events, k);
    if events[k].kind == Start {
      AfterStart(entries, events, cuts, k, runningTasks, lastWeightedTime');
      runningTasks' := runningTasks[target := lastWeightedTime'];
    } else {
      StopReadsCharge(entries, events, cuts, k, runningTasks, lastWeightedTime');
      if target !in runningTasks {
        ok := false;
      } else {
        OneMoreDone(entries, entries, cuts, Stopped(events, k), target);
        var weightedDuration;
        weightedDuration, runningTasks' := Finish(entries, events, k, runningTasks, lastWeightedTime', cuts);
        weightedTotal' := weightedTotal + weightedDuration;
      }
    }
  }

  method Sweep(entries: seq<Target>, events: seq<Event>, ghost cuts: seq<real>) returns (ok: bool, weightedTotal: real)
    requires Distinct(entries) && entries != []
    requires Schedule(entries, events) && cuts == Map(TimeOf, events)
    modifies entries
    ensures ok <==> forall t | t in entries :: t.start <= t.end
    ensures ok ==> forall t | t in entries :: t.weightedDuration == ChargeOn(entries, cuts, t)
    ensures ok ==> weightedTotal == TotalChargeUpTo(entries, entries, cuts, |cuts| - 1)
  {
    ok, weightedTotal := true, 0.0;
    var runningTasks: map<Target, real> := map[];
    var lastTime := events[0].time;
    var lastWeightedTime := 0.0;
    assert Started(events, 0) == {} && Stopped(events, 0) == {};
    AllDone(entries, entries, cuts, {});
    for k := 0 to |events|
      invariant ok && lastTime == cuts[if k == 0 then 0 else k - 1]
      invariant k == 0 ==> runningTasks == map[]
      invariant Sweeping(entries, events, cuts, k, if k == 0 then 0 else k - 1, runningTasks, lastWeightedTime)
      invariant weightedTotal == TotalDone(entries, entries, cuts, Stopped(events, k))
    {
      ok, runningTasks, lastWeightedTime, weightedTotal :=
        PassEvent(entries, events, k, runningTasks, lastTime, lastWeightedTime, weightedTotal, cuts);
      if !ok {
        return;
      }
      lastTime := events[k].time;
    }
    EveryoneStopped(entries, events);
    AllDone(entries, entries, cuts, Stopped(events, |events|));
    // The source's own check.
    assert |runningTasks| == 0;
  }

  // ----- what it all means for the entries -----

  /** What `t` is charged: its share of every elementary segment it runs through. */
  function Charge(entries: seq<Target>, t: Target): real {
    ChargeOn(entries, Cuts(entries), t)
  }

  function TotalCharge(part: seq<Target>, entries: seq<Target>): real {
    if part == [] then 0.0 else TotalCharge(part[..|part| - 1], entries) + Charge(entries, part[|part| - 1])
  }

  /** The time during which anything runs. */
  function Busy(entries: seq<Target>): real {
    var cuts := Cuts(entries);
    if cuts == [] then 0.0 else BusyUpTo(entries, cuts, |cuts| - 1)
  }

  /** Running count times length, over all segments. */
  function Load(entries: seq<Target>): real {
    var cuts := Cuts(entries);
    if cuts == [] then 0.0 else LoadUpTo(entries, cuts, |cuts| - 1)
  }

  predicate NoIdleGap(entries: seq<Target>) {
    forall k | 0 < k < |Cuts(entries)| :: !IdleAt(entries, Cuts(entries), k)
  }

  lemma SortYieldsSchedule(entries: seq<Target>)
    requires Distinct(entries)
    ensures Schedule(entries, Sort(KeyOf, KeyLeq, Events(entries)))
  {
    EventsOrdered();
    SortSorts(KeyOf, KeyLeq, Events(entries));
    SortedIsSchedule(entries, Sort(KeyOf, KeyLeq, Events(entries)));
  }

  lemma CutsAreGrid(entries: seq<Target>)
    requires Distinct(entries)
    ensures Grid(entries, Cuts(entries))
  {
    SortYieldsSchedule(entries);
    ScheduleIsGrid(entries, Sort(KeyOf, KeyLeq, Events(entries)));
  }

  /** No step is charged a negative time or more than its duration. */
  lemma ChargeBounds(entries: seq<Target>, t: Target)
    requires Distinct(entries) && t in entries && t.start <= t.end
    ensures 0.0 <= Charge(entries, t) <= t.Duration()
  {
    var cuts := Cuts(entries);
    CutsAreGrid(entries);
    LengthIsDuration(entries, cuts, t);
    ChargeBoundsUpTo(entries, cuts, t, |cuts| - 1);
  }

  lemma {:induction false} TotalChargeIsUpTo(part: seq<Target>, entries: seq<Target>, cuts: seq<real>)
    requires cuts == Cuts(entries) && cuts != []
    ensures TotalCharge(part, entries) == TotalChargeUpTo(part, entries, cuts, |cuts| - 1)
  {
    if part != [] {
      TotalChargeIsUpTo(part[..|part| - 1], entries, cuts);
    }
  }

  /** The charges add up to the time during which anything runs. */
  lemma Conservation(entries: seq<Target>)
    requires Distinct(entries)
    ensures TotalCharge(entries, entries) == Busy(entries)
  {
    CutsAreGrid(entries);
    if entries != [] {
      TotalChargeIsUpTo(entries, entries, Cuts(entries));
      ConservationUpTo(entries, Cuts(entries), |Cuts(entries)| - 1);
    }
  }

  /** The plain durations add up to running count times length over all segments. */
  lemma DurationsAddUp(entries: seq<Target>)
    requires Distinct(entries) && forall t | t in entries :: t.start <= t.end
    ensures TotalDuration(entries) == Load(entries)
  {
    CutsAreGrid(entries);
    if entries != [] {
      DurationIsLoad(entries, entries, Cuts(entries));
    }
  }

  /** The charges never exceed the span of the build, and fill it exactly when there is no idle gap. */
  lemma ChargesFillTheSpan(entries: seq<Target>, earliest: real, latest: real)
    requires Distinct(entries) && entries != [] && forall t | t in entries :: t.start <= t.end
    requires IsEarliest(entries, earliest) && IsLatest(entries, latest)
    ensures TotalCharge(entries, entries) <= latest - earliest
    ensures TotalCharge(entries, entries) == latest - earliest <==> NoIdleGap(entries)
  {
    var cuts := Cuts(entries);
    CutsAreGrid(entries);
    Conservation(entries);
    SpanIsGrid(entries, cuts, earliest, latest);
    BusyUpToSpan(entries, cuts, |cuts| - 1);
  }

  lemma {:induction false} ChargePermutedUpTo(entries: seq<Target>, others: seq<Target>, cuts: seq<real>, t: Target, k: nat)
    requires Distinct(entries) && Distinct(others) && (k < |cuts| || k == 0)
    requires (forall u | u in entries :: u in others) && (forall u | u in others :: u in entries)
    ensures ChargeUpTo(entries, cuts, t, k) == ChargeUpTo(others, cuts, t, k)
  {
    if k > 0 {
      ChargePermutedUpTo(entries, others, cuts, t, k - 1);
      var a, b := cuts[k - 1], cuts[k];
      CountIsCardinality(entries, a, b);
      CountIsCardinality(others, a, b);
      assert Covering(entries, a, b) == Covering(others, a, b);
    }
  }

  lemma CutsPermuted(entries: seq<Target>, others: seq<Target>)
    requires Distinct(entries) && Distinct(others)
    requires (forall u | u in entries :: u in others) && (forall u | u in others :: u in entries)
    ensures Cuts(entries) == Cuts(others)
  {
    SortYieldsSchedule(entries);
    SortYieldsSchedule(others);
    SameTimes(entries, Sort(KeyOf, KeyLeq, Events(entries)), others, Sort(KeyOf, KeyLeq, Events(others)));
  }

  /** The order in which the entries are listed makes no difference. */
  lemma ChargePermuted(entries: seq<Target>, others: seq<Target>, t: Target)
    requires Distinct(entries) && Distinct(others)
    requires (forall u | u in entries :: u in others) && (forall u | u in others :: u in entries)
    ensures Charge(entries, t) == Charge(others, t)
  {
    CutsPermuted(entries, others);
    var cuts := Cuts(entries);
    if cuts != [] {
      ChargePermutedUpTo(entries, others, cuts, t, |cuts| - 1);
    }
  }

  lemma TotalsAddUp(entries: seq<Target>, cuts: seq<real>)
    requires Distinct(entries) && cuts == Cuts(entries) && cuts != [] && forall t | t in entries :: t.start <= t.end
    ensures TotalChargeUpTo(entries, entries, cuts, |cuts| - 1) == TotalCharge(entries, entries) == Busy(entries)
    ensures TotalDuration(entries) == Load(entries)
  {
    TotalChargeIsUpTo(entries, entries, cuts);
    Conservation(entries);
    DurationsAddUp(entries);
  }

  lemma SweepGoesThroughCuts(entries: seq<Target>, events: seq<Event>)
    requires Distinct(entries) && multiset(events) == multiset(Events(entries)) && Sorted(KeyOf, KeyLeq, events)
    ensures Schedule(entries, events) && Map(TimeOf, events) == Cuts(entries) && |events| == 2 * |entries|
  {
    SortedIsSchedule(entries, events);
    SortYieldsSchedule(entries);
    SameTimes(entries, events, entries, Sort(KeyOf, KeyLeq, Events(entries)));
  }

  // ----- the code -----

  datatype Summary =
    | Report(length: real, weightedTotal: real, totalCpuTime: real)
    | IndexError
    | KeyError

  /** Sorts events by time and kind. Only what every sort guarantees is promised. */
  method SortEvents(events: seq<Event>) returns (sorted: seq<Event>)
    ensures multiset(sorted) == multiset(events) && Sorted(KeyOf, KeyLeq, sorted)
  {
    EventsOrdered();
    SortSorts(KeyOf, KeyLeq, events);
    sorted := Sort(KeyOf, KeyLeq, events);
  }

  predicate Forward(entries: seq<Target>) {
    forall t | t in entries :: 0.0 <= t.start <= t.end
  }

  /** `earliest` and `latest` are what they should be, if times are as they should be. */
  predicate Spans(entries: seq<Target>, earliest: real, latest: real) {
    if entries == [] then earliest == -1.0 && latest == 0.0
    else Forward(entries) ==> 0.0 <= earliest && IsEarliest(entries, earliest) && IsLatest(entries, latest)
  }

  lemma SpansStep(before: seq<Target>, target: Target, earliest: real, latest: real, all: seq<Target>)
    requires Spans(before, earliest, latest) && all == before + [target]
    ensures Spans(all,
                  if earliest < 0.0 || target.start < earliest then target.start else earliest,
                  if target.end > latest then target.end else latest)
  {
    assert target in all && forall t | t in before :: t in all;
    assert Forward(all) ==> Forward(before);
  }

  /** The first loop: span, total duration and unsorted events. */
  method Collect(entries: seq<Target>)
    returns (earliest: real, latest: real, totalCpuTime: real, events: seq<Event>)
    ensures totalCpuTime == TotalDuration(entries) && events == Events(entries)
    ensures Spans(entries, earliest, latest)
  {
    earliest, latest, totalCpuTime := -1.0, 0.0, 0.0;
    events := [];
    for i := 0 to |entries|
      invariant totalCpuTime == TotalDuration(entries[..i]) && events == Events(entries[..i])
      invariant Spans(entries[..i], earliest, latest)
    {
      var target := entries[i];
      assert entries[..i + 1][..i] == entries[..i];
      SpansStep(entries[..i], target, earliest, latest, entries[..i + 1]);
      if earliest < 0.0 || target.start < earliest {
        earliest := target.start;
      }
      if target.end > latest {
        latest := target.end;
      }
      totalCpuTime := totalCpuTime + target.Duration();
      events := events + [StartEvent(target)];
      events := events + [StopEvent(target)];
    }
    assert entries[..|entries|] == entries;
  }

  lemma AllChargesBounded(entries: seq<Target>)
    requires Distinct(entries) && forall t | t in entries :: t.start <= t.end
    ensures forall t | t in entries :: 0.0 <= Charge(entries, t) <= t.Duration()
  {
    forall t | t in entries ensures 0.0 <= Charge(entries, t) <= t.Duration() {
      ChargeBounds(entries, t);
    }
  }

  lemma SpanIsFilled(entries: seq<Target>, earliest: real, latest: real)
    requires Distinct(entries) && entries != [] && forall t | t in entries :: t.start <= t.end
    requires Spans(entries, earliest, latest)
    ensures (forall t | t in entries :: 0.0 <= t.start) ==>
              && IsEarliest(entries, earliest) && IsLatest(entries, latest) && Busy(entries) <= latest - earliest
              && (Busy(entries) == latest - earliest <==> NoIdleGap(entries))
  {
    if forall t | t in entries :: 0.0 <= t.start {
      ChargesFillTheSpan(entries, earliest, latest);
      Conservation(entries);
    }
  }

  /** Sorts the events and sweeps over them. */
  method SortAndSweep(entries: seq<Target>, unsorted: seq<Event>) returns (ok: bool, weightedTotal: real)
    requires Distinct(entries) && entries != [] && unsorted == Events(entries)
    modifies entries
    ensures ok <==> forall t | t in entries :: t.start <= t.end
    ensures ok ==> forall t | t in entries ::
              t.weightedDuration == Charge(entries, t) && 0.0 <= t.weightedDuration <= t.Duration()
    ensures ok ==> weightedTotal == Busy(entries)
  {
    var events := SortEvents(unsorted);
    ghost var cuts := Map(TimeOf, events);
    SweepGoesThroughCuts(entries, events);
    ok, weightedTotal := Sweep(entries, events, cuts);
    if ok {
      TotalsAddUp(entries, cuts);
      AllChargesBounded(entries);
    }
  }

  /**
  Fails on an empty log, and on an entry that ends before it starts. Otherwise every target holds its charge
  and the total is conserved.
  */
  method SummarizeEntries(entries: seq<Target>) returns (r: Summary)
    requires Distinct(entries)
    modifies entries
    ensures r.IndexError? <==> entries == []
    ensures r.KeyError? <==> exists t | t in entries :: t.end < t.start
    ensures r.Report? ==> forall t | t in entries ::
              t.weightedDuration == Charge(entries, t) && 0.0 <= t.weightedDuration <= t.Duration()
    ensures r.Report? ==> r.weightedTotal == Busy(entries) && r.totalCpuTime == Load(entries)
    ensures r.Report? && (forall t | t in entries :: 0.0 <= t.start) ==>
              && (exists e, l :: IsEarliest(entries, e) && IsLatest(entries, l) && r.length == l - e)
              && r.weightedTotal <= r.length
              && (r.weightedTotal == r.length <==> NoIdleGap(entries))
  {
    if entries == [] {
      return IndexError;
    }
    var earliest, latest, totalCpuTime, events := Collect(entries);
    var length := latest - earliest;
    var ok, weightedTotal := SortAndSweep(entries, events);
    if !ok {
      return KeyError;
    }
    DurationsAddUp(entries);
    SpanIsFilled(entries, earliest, latest);
    r := Report(length, weightedTotal, totalCpuTime);
  }

  /** What is printed for each step, after the summary: the assertion made when a weighted duration is asked for holds. */
  method WeightedDurations(entries: seq<Target>) returns (r: Summary, durations: seq<real>)
    requires Distinct(entries)
    modifies entries
    ensures r.IndexError? <==> entries == []
    ensures r.KeyError? <==> exists t | t in entries :: t.end < t.start
    ensures r.Report? ==> |durations| == |entries| && forall i | 0 <= i < |entries| :: durations[i] == Charge(entries, entries[i])
  {
    durations := [];
    r := SummarizeEntries(entries);
    if r.Report? {
      durations := AskDurations(entries);
    }
  }

  method AskDurations(entries: seq<Target>) returns (durations: seq<real>)
    requires forall t | t in entries :: t.weightedDuration == Charge(entries, t) <= t.Duration()
    ensures |durations| == |entries| && forall i | 0 <= i < |entries| :: durations[i] == Charge(entries, entries[i])
  {
    durations := [];
    for i := 0 to |entries|
      invariant |durations| == i && forall j | 0 <= j < i :: durations[j] == Charge(entries, entries[j])
    {
      var w := entries[i].WeightedDuration();
      durations := durations + [w];
    }
  }
}
