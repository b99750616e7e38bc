/** When the events of a bucket of src2/EventsWindow.cpp lie between its start and its end. */
module EventBounds {
  import opened EventsWindow

  predicate AllFrom(events: seq<Event>, limit: int) {
    forall i :: 0 <= i < |events| ==> limit <= events[i].info.time
  }

  /** No event lies before the start of its bucket, or of the current window. */
  ghost predicate Started(h: History) {
    && |h.buckets| == |h.segments|
    && (forall i | 0 <= i < |h.buckets| :: AllFrom(h.segments[i], h.buckets[i].start))
    && AllFrom(h.current, h.window.begin)
  }

  /** The event is beyond the window that would follow, so that the clock restarts the windows. */
  predicate Restarts(w: Window, e: Event) {
    w.end <= e.info.time && w.end + 1000 * w.size < e.info.time
  }

  /** An event is not late, and if it restarts the windows, the clock is not ahead of it. */
  predicate OnTime(w: Window, s: Step) {
    s.Add? ==>
      && (s.event.info.time < w.end ==> w.begin <= s.event.info.time)
      && (Restarts(w, s.event) ==> s.clock <= s.event.info.time)
  }

  /** If an event restarts the windows, the clock is not a whole window behind it. */
  predicate ClockFollows(w: Window, s: Step) {
    s.Add? && Restarts(w, s.event) ==> s.event.info.time <= s.clock + 1000 * w.size
  }

  ghost predicate AllOnTime(size: int, clock: int, leftover: int, steps: seq<Step>) {
    steps == [] || (AllOnTime(size, clock, leftover, Front(steps))
                    && OnTime(Run(size, clock, leftover, Front(steps)).window, Last(steps)))
  }

  ghost predicate ClockAlwaysFollows(size: int, clock: int, leftover: int, steps: seq<Step>) {
    steps == [] || (ClockAlwaysFollows(size, clock, leftover, Front(steps))
                    && ClockFollows(Run(size, clock, leftover, Front(steps)).window, Last(steps)))
  }

  lemma AllFromMore(events: seq<Event>, e: Event, limit: int)
    ensures AllFrom(events + [e], limit) <==> AllFrom(events, limit) && limit <= e.info.time
    ensures AllUpTo(events + [e], limit) <==> AllUpTo(events, limit) && e.info.time <= limit
  {
    assert (events + [e])[|events|] == e;
    assert forall i :: 0 <= i < |events| ==> (events + [e])[i] == events[i];
  }

  lemma EmitBounds(h: History)
    requires h.window.Valid() && |h.buckets| == |h.segments|
    ensures Started(h.Emit()) <==> Started(h)
    ensures h.Emit().InTime() <==> h.InTime()
  {
    hide AllFrom, AllUpTo;
    var g, n := h.Emit(), |h.buckets|;
    assert g.buckets[n] == h.window.Current() && g.segments[n] == h.current;
    assert forall i :: 0 <= i < n ==> g.buckets[i] == h.buckets[i] && g.segments[i] == h.segments[i];
    NothingToBound(g.window.begin, g.window.end);
  }

  lemma NothingToBound(from: int, to: int)
    ensures AllFrom([], from) && AllUpTo([], to)
  {
  }

  lemma StepBounds(h: History, s: Step)
    requires h.window.Valid() && |h.buckets| == |h.segments|
    ensures Started(h.Do(s)) <==> Started(h) && OnTime(h.window, s)
    ensures h.Do(s).InTime() <==> h.InTime() && ClockFollows(h.window, s)
  {
    hide AllFrom, AllUpTo;
    EmitBounds(h);
    if s.Add? {
      if s.event.info.time < h.window.end {
        AllFromMore(h.current, s.event, h.window.begin);
        AllFromMore(h.current, s.event, h.window.end);
      } else {
        var w := h.window.OpenedFor(s.event, s.clock);
        NothingToBound(w.begin, w.end);
        NothingToBound(h.Emit().window.begin, h.Emit().window.end);
        AllFromMore([], s.event, w.begin);
        AllFromMore([], s.event, w.end);
      }
    }
  }

  /** Every event of every bucket is from the bucket's start on exactly if no event was late when it arrived and
      the clock was not ahead of one that restarted the windows; ... */
  lemma {:induction false} StartedExactly(size: int, clock: int, leftover: int, steps: seq<Step>)
    ensures Started(Run(size, clock, leftover, steps)) <==> AllOnTime(size, clock, leftover, steps)
    decreases |steps|
  {
    hide OnTime, Started;
    if steps == [] {
      assert Started(Run(size, clock, leftover, [])) by { FreshBounds(size, clock, leftover); }
    } else {
      StartedExactly(size, clock, leftover, Front(steps));
      StepBounds(Run(size, clock, leftover, Front(steps)), Last(steps));
    }
  }

  /** ... and it is within the bucket's end exactly if the clock was never a whole window behind one that
      restarted the windows. */
  lemma {:induction false} InTimeExactly(size: int, clock: int, leftover: int, steps: seq<Step>)
    ensures Run(size, clock, leftover, steps).InTime() <==> ClockAlwaysFollows(size, clock, leftover, steps)
    decreases |steps|
  {
    hide ClockFollows, History.InTime;
    if steps == [] {
      assert Run(size, clock, leftover, []).InTime() by { FreshBounds(size, clock, leftover); }
    } else {
      InTimeExactly(size, clock, leftover, Front(steps));
      StepBounds(Run(size, clock, leftover, Front(steps)), Last(steps));
    }
  }

  lemma FreshBounds(size: int, clock: int, leftover: int)
    ensures Started(Run(size, clock, leftover, [])) && Run(size, clock, leftover, []).InTime()
  {
  }
}
