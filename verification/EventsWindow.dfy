/** The time windows of src2/EventsWindow.cpp: a stream of beacon events is cut into buckets, each holding
    one averaged record per minor id. */
module EventsWindow {
  import opened Wrappers
  import opened CArith

  datatype BeaconInfo = BeaconInfo(uuid: string, isHeartbeat: bool, count: int, code: int, manufacturer: int,
    major: int, minor: int, power: int, calibratedPower: int, rssi: int, time: int)

  datatype Bucket = Bucket(entries: map<int, BeaconInfo>, eventCount: int, start: int, end: int)

  /** An event as it arrives. */
  datatype Event = Event(info: BeaconInfo, isHeartbeat: bool)

  function Front<T>(s: seq<T>): seq<T>
    requires s != []
  {
    s[..|s| - 1]
  }

  function Last<T>(s: seq<T>): T
    requires s != []
  {
    s[|s| - 1]
  }

  lemma Snoc<T>(s: seq<T>, x: T)
    ensures s + [x] != [] && Front(s + [x]) == s && Last(s + [x]) == x
  {
  }

  // ----- the reference: what a bucket should hold of its events

  function Count(events: seq<Event>, minor: int): nat {
    if events == [] then 0 else Count(Front(events), minor) + (if Last(events).info.minor == minor then 1 else 0)
  }

  function SumRssi(events: seq<Event>, minor: int): int {
    if events == [] then 0
    else SumRssi(Front(events), minor) + (if Last(events).info.minor == minor then Last(events).info.rssi else 0)
  }

  function SumTime(events: seq<Event>, minor: int): int {
    if events == [] then 0
    else SumTime(Front(events), minor) + (if Last(events).info.minor == minor then Last(events).info.time else 0)
  }

  /** The first event of the minor id. */
  function First(events: seq<Event>, minor: int): (e: Event)
    requires Count(events, minor) > 0
    ensures e.info.minor == minor
  {
    if Count(Front(events), minor) > 0 then First(Front(events), minor) else Last(events)
  }

  function Minors(events: seq<Event>): set<int> {
    if events == [] then {} else Minors(Front(events)) + {Last(events).info.minor}
  }

  lemma {:induction false} CountPositive(events: seq<Event>, minor: int)
    ensures Count(events, minor) > 0 <==> minor in Minors(events)
  {
    if events != [] { CountPositive(Front(events), minor); }
  }

  /** The unaveraged record of a minor id: the fields of its first event and the sums over all of them. */
  function Totals(events: seq<Event>, minor: int): BeaconInfo
    requires Count(events, minor) > 0
  {
    First(events, minor).info.(isHeartbeat := First(events, minor).isHeartbeat, count := Count(events, minor),
      rssi := SumRssi(events, minor), time := SumTime(events, minor))
  }

  /** The record of a minor id in a bucket: the truncated means of signal strength and time. */
  function Mean(total: BeaconInfo): BeaconInfo
    requires total.count > 0
  {
    total.(rssi := TruncDiv(total.rssi, total.count), time := TruncDiv(total.time, total.count))
  }

  ghost predicate IsTotals(entries: map<int, BeaconInfo>, events: seq<Event>) {
    && entries.Keys == Minors(events)
    && forall m | m in entries :: Count(events, m) > 0 && entries[m] == Totals(events, m)
  }

  ghost predicate IsMeans(entries: map<int, BeaconInfo>, events: seq<Event>) {
    && entries.Keys == Minors(events)
    && forall m | m in entries :: Count(events, m) > 0 && entries[m] == Mean(Totals(events, m))
  }

  // ----- the window

  /** Adds an event to the records of a window. */
  function AddInfo(entries: map<int, BeaconInfo>, e: Event): map<int, BeaconInfo> {
    var m := e.info.minor;
    if m !in entries then entries[m := e.info.(count := 1, isHeartbeat := e.isHeartbeat)]
    else entries[m := entries[m].(rssi := entries[m].rssi + e.info.rssi, time := entries[m].time + e.info.time,
                                  count := entries[m].count + 1)]
  }

  predicate Counted(entries: map<int, BeaconInfo>) {
    forall m | m in entries :: entries[m].count > 0
  }

  function Averages(entries: map<int, BeaconInfo>): map<int, BeaconInfo>
    requires Counted(entries)
  {
    map m | m in entries :: Mean(entries[m])
  }

  lemma {:induction false} AddInfoKeepsTotals(entries: map<int, BeaconInfo>, events: seq<Event>, e: Event)
    requires IsTotals(entries, events)
    ensures IsTotals(AddInfo(entries, e), events + [e])
  {
    Snoc(events, e);
    CountPositive(events, e.info.minor);
    var added := AddInfo(entries, e);
    forall m | m in added ensures Count(events + [e], m) > 0 && added[m] == Totals(events + [e], m) {
      TotalsOfMore(events, e, m);
    }
  }

  lemma TotalsOfMore(events: seq<Event>, e: Event, m: int)
    ensures Count(events + [e], m) == Count(events, m) + (if e.info.minor == m then 1 else 0)
    ensures Count(events, m) > 0 ==>
      Totals(events + [e], m) == if e.info.minor != m then Totals(events, m) else
        var t := Totals(events, m);
        t.(count := t.count + 1, rssi := t.rssi + e.info.rssi, time := t.time + e.info.time)
    ensures Count(events, m) == 0 && e.info.minor == m ==>
      Totals(events + [e], m) == e.info.(count := 1, isHeartbeat := e.isHeartbeat)
  {
    Snoc(events, e);
    if Count(events, m) == 0 { NoneCounted(events, m); }
  }

  lemma {:induction false} NoneCounted(events: seq<Event>, m: int)
    requires Count(events, m) == 0
    ensures SumRssi(events, m) == 0 && SumTime(events, m) == 0
  {
    if events != [] { NoneCounted(Front(events), m); }
  }

  datatype Window = Window(size: int, begin: int, end: int, eventCount: int, entries: map<int, BeaconInfo>)
  {
    predicate Valid() {
      Counted(entries)
    }

    function Current(): Bucket
      requires Valid()
    {
      Bucket(Averages(entries), eventCount, begin, end)
    }

    /** The window that follows directly. */
    function Following(): Window {
      Window(size, end, end + 1000 * size, 0, map[])
    }

    function Restarted(clock: int): Window {
      this.(begin := clock, end := clock + 1000 * size)
    }

    function WithEvent(e: Event): Window {
      this.(entries := AddInfo(entries, e), eventCount := eventCount + 1)
    }

    /** The window that receives an event, which the clock reading `clock` accompanies. */
    function OpenedFor(e: Event, clock: int): Window {
      if e.info.time < end then this
      else if Following().end < e.info.time then Following().Restarted(clock)
      else Following()
    }

    function After(e: Event, clock: int): Window {
      OpenedFor(e, clock).WithEvent(e)
    }
  }

  /** The object of the sources; `Abstract` is its state as a value. */
  class EventsWindow {
    var windowSizeSeconds: int
    var begin: int
    var end: int
    var eventCount: int
    var eventsMap: map<int, BeaconInfo>

    function Abstract(): Window
      reads this
    {
      Window(windowSizeSeconds, begin, end, eventCount, eventsMap)
    }

    constructor ()
      ensures Abstract() == Window(0, 0, 0, 0, map[])
    {
      windowSizeSeconds, begin, end, eventCount, eventsMap := 0, 0, 0, 0, map[];
    }

    method ResetCurrentBucket(clock: int)
      modifies this`begin, this`end
      ensures Abstract() == old(Abstract()).Restarted(clock)
    {
      begin := clock;
      end := begin + 1000 * windowSizeSeconds;
    }

    /** Leaves the event counter as it is. */
    method Reset(sizeInSeconds: int, clock: int)
      modifies this
      ensures Abstract() == Window(sizeInSeconds, clock, clock + 1000 * sizeInSeconds, old(eventCount), map[])
      ensures Abstract() == Run(sizeInSeconds, clock, old(eventCount), []).window
    {
      windowSizeSeconds := sizeInSeconds;
      eventsMap := map[];
      ResetCurrentBucket(clock);
    }

    method AddToMap(e: Event)
      modifies this`eventsMap
      ensures eventsMap == AddInfo(old(eventsMap), e)
    {
      var m := e.info.minor;
      if m !in eventsMap {
        eventsMap := eventsMap[m := e.info];
        eventsMap := eventsMap[m := eventsMap[m].(count := 1)];
        eventsMap := eventsMap[m := eventsMap[m].(isHeartbeat := e.isHeartbeat)];
      } else {
        eventsMap := eventsMap[m := eventsMap[m].(rssi := eventsMap[m].rssi + e.info.rssi)];
        eventsMap := eventsMap[m := eventsMap[m].(time := eventsMap[m].time + e.info.time)];
        eventsMap := eventsMap[m := eventsMap[m].(count := eventsMap[m].count + 1)];
      }
    }

    /** Divides the sums by the counts, record by record. */
    method AverageInPlace()
      requires Abstract().Valid()
      modifies this`eventsMap
      ensures eventsMap == Averages(old(eventsMap))
    {
      hide TruncDiv;
      var todo := eventsMap.Keys;
      ghost var sums := eventsMap;
      while todo != {}
        invariant todo <= eventsMap.Keys == sums.Keys
        invariant forall m | m in sums :: eventsMap[m] == if m in todo then sums[m] else Mean(sums[m])
        decreases todo
      {
        if forall m :: m !in todo { assert false; }
        var m :| m in todo;
        var info := eventsMap[m];
        info := info.(rssi := TruncDiv(info.rssi, info.count));
        info := info.(time := TruncDiv(info.time, info.count));
        eventsMap := eventsMap[m := info];
        todo := todo - {m};
      }
      assert eventsMap.Keys == Averages(sums).Keys;
      assert forall m | m in sums :: eventsMap[m] == Averages(sums)[m];
    }

    /** Closes the current bucket and opens the following one. */
    method GetCurrentBucket() returns (bucket: Bucket)
      requires Abstract().Valid()
      modifies this
      ensures bucket == old(Abstract()).Current() && Abstract() == old(Abstract()).Following()
    {
      AverageInPlace();
      bucket := Bucket(eventsMap, eventCount, begin, end);
      eventsMap := map[];
      begin := end;
      end := end + 1000 * windowSizeSeconds;
      eventCount := 0;
    }

    /** Adds an event; one that is not before the end of the window closes the bucket first. */
    method AddEvent(e: Event, clock: int) returns (bucket: Option<Bucket>)
      requires Abstract().Valid()
      modifies this
      ensures bucket == if e.info.time < old(end) then None else Some(old(Abstract()).Current())
      ensures Abstract() == old(Abstract()).After(e, clock)
    {
      bucket := None;
      if e.info.time < end {
        AddToMap(e);
        eventCount := eventCount + 1;
      } else {
        AverageInPlace();
        bucket := Some(Bucket(eventsMap, eventCount, begin, end));
        eventsMap := map[];
        begin := end;
        end := end + 1000 * windowSizeSeconds;
        if end < e.info.time {
          ResetCurrentBucket(clock);
        }
        eventCount := 0;
        AddToMap(e);
        eventCount := eventCount + 1;
      }
    }
  }

  // ----- whole runs

  datatype Step = Add(event: Event, clock: int) | Take

  /** A run since `reset`: the buckets emitted, the events that went into each of them, those of the
      current window, and the window itself. */
  datatype History = History(window: Window, buckets: seq<Bucket>, segments: seq<seq<Event>>, current: seq<Event>)
  {
    function Emit(): History
      requires window.Valid()
    {
      History(window.Following(), buckets + [window.Current()], segments + [current], [])
    }

    function Accept(e: Event): History {
      this.(window := window.WithEvent(e), current := current + [e])
    }

    function Do(s: Step): History
      requires window.Valid()
    {
      match s
      case Take => Emit()
      case Add(e, clock) =>
        (if e.info.time < window.end then this else Emit().(window := window.OpenedFor(e, clock))).Accept(e)
    }

    /** Bucket i sums up segment i, and the window's records are the totals of the current events. */
    ghost predicate SumsUp(leftover: int) {
      && |buckets| == |segments|
      && (forall i | 0 <= i < |buckets| :: IsMeans(buckets[i].entries, segments[i]))
      && IsTotals(window.entries, current)
      && (forall i | 0 <= i < |buckets| ::
           buckets[i].eventCount == |segments[i]| + if i == 0 then leftover else 0)
      && window.eventCount == |current| + if buckets == [] then leftover else 0
    }

    /** Each bucket lasts for the window size, and begins where the one before ended, unless its first
        event lay beyond the window that would have followed. */
    ghost predicate Abuts(size: int) {
      && |buckets| == |segments| && window.size == size
      && window.end == window.begin + 1000 * size
      && (forall i | 0 <= i < |buckets| :: buckets[i].end == buckets[i].start + 1000 * size)
      && (forall i | 0 < i < |buckets| ::
           buckets[i].start == buckets[i - 1].end || Overshoots(segments[i], buckets[i - 1].end + 1000 * size))
      && (buckets != [] ==>
           window.begin == Last(buckets).end || Overshoots(current, Last(buckets).end + 1000 * size))
    }

    ghost predicate InTime() {
      && |buckets| == |segments|
      && (forall i | 0 <= i < |buckets| :: AllUpTo(segments[i], buckets[i].end))
      && AllUpTo(current, window.end)
    }
  }

  predicate Overshoots(events: seq<Event>, limit: int) {
    events != [] && events[0].info.time > limit
  }

  predicate AllUpTo(events: seq<Event>, limit: int) {
    forall i :: 0 <= i < |events| ==> events[i].info.time <= limit
  }

  lemma TotalsCounted(entries: map<int, BeaconInfo>, events: seq<Event>)
    requires IsTotals(entries, events)
    ensures Counted(entries) && IsMeans(Averages(entries), events)
  {
  }

  function EventsOf(steps: seq<Step>): seq<Event> {
    if steps == [] then []
    else EventsOf(Front(steps)) + (if Last(steps).Add? then [Last(steps).event] else [])
  }

  function Flatten(segments: seq<seq<Event>>): seq<Event> {
    if segments == [] then [] else Flatten(Front(segments)) + Last(segments)
  }

  /** The window that `Reset` leaves behind. */
  function Fresh(size: int, clock: int, leftover: int): Window {
    Window(size, clock, clock + 1000 * size, leftover, map[])
  }

  ghost function Run(size: int, clock: int, leftover: int, steps: seq<Step>): (h: History)
    ensures h.SumsUp(leftover) && h.window.Valid()
    decreases |steps|
  {
    if steps == [] then
      History(Fresh(size, clock, leftover), [], [], [])
    else
      var before := Run(size, clock, leftover, Front(steps));
      StepSumsUp(before, leftover, Last(steps));
      before.Do(Last(steps))
  }

  lemma EmitSumsUp(h: History, leftover: int)
    requires h.SumsUp(leftover) && h.window.Valid()
    ensures h.Emit().SumsUp(leftover)
  {
    TotalsCounted(h.window.entries, h.current);
  }

  lemma AcceptSumsUp(h: History, leftover: int, e: Event)
    requires h.SumsUp(leftover)
    ensures h.Accept(e).SumsUp(leftover)
  {
    AddInfoKeepsTotals(h.window.entries, h.current, e);
  }

  lemma StepSumsUp(h: History, leftover: int, s: Step)
    requires h.SumsUp(leftover) && h.window.Valid()
    ensures h.Do(s).SumsUp(leftover) && h.Do(s).window.Valid()
  {
    EmitSumsUp(h, leftover);
    if s.Add? {
      var base :=
        if s.event.info.time < h.window.end then h else h.Emit().(window := h.window.OpenedFor(s.event, s.clock));
      AcceptSumsUp(base, leftover, s.event);
    }
    TotalsCounted(h.Do(s).window.entries, h.Do(s).current);
  }

  /** The run's window is the one that the window's operations produce. */
  lemma DoFollowsWindow(h: History, s: Step)
    requires h.window.Valid()
    ensures h.Do(s).window == if s.Add? then h.window.After(s.event, s.clock) else h.window.Following()
    ensures h.Do(s).buckets == if s.Add? && s.event.info.time < h.window.end then h.buckets
                               else h.buckets + [h.window.Current()]
  {
  }

  /** No event is lost, doubled or reordered: buckets and window together hold the stream. */
  lemma {:induction false} RunPartitions(size: int, clock: int, leftover: int, steps: seq<Step>)
    ensures var h := Run(size, clock, leftover, steps);
      Flatten(h.segments) + h.current == EventsOf(steps)
    decreases |steps|
  {
    if steps != [] {
      RunPartitions(size, clock, leftover, Front(steps));
      StepPartitions(Run(size, clock, leftover, Front(steps)), Last(steps));
    }
  }

  lemma StepPartitions(h: History, s: Step)
    requires h.window.Valid()
    ensures Flatten(h.Do(s).segments) + h.Do(s).current
         == Flatten(h.segments) + h.current + (if s.Add? then [s.event] else [])
  {
    Snoc(h.segments, h.current);
  }

  lemma EmitAbuts(h: History, size: int)
    requires h.window.Valid() && h.Abuts(size)
    ensures h.Emit().Abuts(size)
  {
    Snoc(h.buckets, h.window.Current());
    var g := h.Emit();
    forall i | 0 < i < |g.buckets|
      ensures g.buckets[i].start == g.buckets[i - 1].end
           || Overshoots(g.segments[i], g.buckets[i - 1].end + 1000 * size)
    {
      if i < |h.buckets| {
        assert g.buckets[i] == h.buckets[i] && g.buckets[i - 1] == h.buckets[i - 1] && g.segments[i] == h.segments[i];
      }
    }
  }

  lemma StepAbuts(h: History, size: int, s: Step)
    requires h.window.Valid() && h.Abuts(size)
    ensures h.Do(s).Abuts(size)
  {
    EmitAbuts(h, size);
    if s.Add? {
      var g := h.Do(s);
      if s.event.info.time >= h.window.end {
        assert Last(g.buckets) == h.window.Current();
        assert g.current == [s.event];
      }
    }
  }

  lemma {:induction false} RunAbuts(size: int, clock: int, leftover: int, steps: seq<Step>)
    ensures Run(size, clock, leftover, steps).Abuts(size)
    decreases |steps|
  {
    if steps != [] {
      RunAbuts(size, clock, leftover, Front(steps));
      StepAbuts(Run(size, clock, leftover, Front(steps)), size, Last(steps));
    }
  }

  /** No clock reading is behind the event it accompanies. */
  predicate ClockAhead(steps: seq<Step>) {
    forall i :: 0 <= i < |steps| && steps[i].Add? ==> steps[i].event.info.time <= steps[i].clock
  }

  /** With such a clock every event is within the end of its bucket. */
  lemma {:induction false} RunInTime(size: int, clock: int, leftover: int, steps: seq<Step>)
    requires size >= 0 && ClockAhead(steps)
    ensures Run(size, clock, leftover, steps).InTime()
    decreases |steps|
  {
    if steps != [] {
      var s := Last(steps);
      RunInTime(size, clock, leftover, Front(steps));
      RunAbuts(size, clock, leftover, Front(steps));
      assert s.Add? ==> s.event.info.time <= s.clock;
      StepInTime(Run(size, clock, leftover, Front(steps)), size, s);
    }
  }

  lemma StepInTime(h: History, size: int, s: Step)
    requires h.window.Valid() && h.Abuts(size) && h.InTime() && size >= 0
    requires s.Add? ==> s.event.info.time <= s.clock
    ensures h.Do(s).InTime()
  {
  }

  lemma {:induction false} SumTimeBound(events: seq<Event>, minor: int, limit: int)
    requires AllUpTo(events, limit)
    ensures SumTime(events, minor) <= Count(events, minor) * limit
  {
    if events != [] { SumTimeBound(Front(events), minor, limit); }
  }

  /** The mean time of every record is within the end of its bucket, too. */
  lemma MeanTimeInBucket(size: int, clock: int, leftover: int, steps: seq<Step>, i: nat, m: int)
    requires size >= 0 && ClockAhead(steps)
    requires i < |Run(size, clock, leftover, steps).buckets|
    requires m in Run(size, clock, leftover, steps).buckets[i].entries
    ensures var b := Run(size, clock, leftover, steps).buckets[i]; b.entries[m].time <= b.end
  {
    RunInTime(size, clock, leftover, steps);
    var h := Run(size, clock, leftover, steps);
    var events, b := h.segments[i], h.buckets[i];
    SumTimeBound(events, m, b.end);
    TruncDivAtMost(SumTime(events, m), Count(events, m), b.end);
  }

  lemma TruncDivAtMost(a: int, n: int, hi: int)
    requires n > 0 && a <= n * hi
    ensures TruncDiv(a, n) <= hi
  {
    var lo := if a >= 0 then 0 else a;
    assert n * lo <= a by { if a < 0 { assert n * a <= 1 * a; } }
    TruncDivBetween(a, n, lo, hi);
  }

  /** Up to two million events with octet signal strengths and times below 2^42 milliseconds, the sums of a
      bucket stay within int32_t and int64_t. */
  lemma {:induction false} SumsFit(events: seq<Event>, minor: int)
    requires |events| <= 0x20_0000
    requires forall i :: 0 <= i < |events| ==>
      -128 <= events[i].info.rssi < 128 && 0 <= events[i].info.time < 0x400_0000_0000
    ensures -128 * |events| <= SumRssi(events, minor) <= 127 * |events|
    ensures 0 <= SumTime(events, minor) <= 0x400_0000_0000 * |events|
    ensures ToInt32(SumRssi(events, minor)) == SumRssi(events, minor)
    ensures ToInt64(SumTime(events, minor)) == SumTime(events, minor)
  {
    if events != [] { SumsFit(Front(events), minor); }
  }
}
