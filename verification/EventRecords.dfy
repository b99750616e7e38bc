/** What the record of a minor id in an emitted bucket says of the events it stands for. */
module EventRecords {
  import opened CArith
  import opened EventsWindow

  /** The first event of a minor id, by position. */
  ghost predicate FirstAt(events: seq<Event>, minor: int, k: int) {
    && 0 <= k < |events| && events[k].info.minor == minor
    && forall j :: 0 <= j < k ==> events[j].info.minor != minor
  }

  predicate Occurs(events: seq<Event>, minor: int) {
    exists i :: 0 <= i < |events| && events[i].info.minor == minor
  }

  lemma {:induction false} NoneBefore(events: seq<Event>, minor: int)
    requires Count(events, minor) == 0
    ensures forall j :: 0 <= j < |events| ==> events[j].info.minor != minor
  {
    if events != [] { NoneBefore(Front(events), minor); }
  }

  lemma {:induction false} FirstIsFirst(events: seq<Event>, minor: int) returns (k: int)
    requires Count(events, minor) > 0
    ensures FirstAt(events, minor, k) && First(events, minor) == events[k]
  {
    if Count(Front(events), minor) > 0 {
      k := FirstIsFirst(Front(events), minor);
    } else {
      NoneBefore(Front(events), minor);
      k := |events| - 1;
    }
  }

  lemma OccursWhenCounted(events: seq<Event>, minor: int)
    ensures Occurs(events, minor) <==> Count(events, minor) > 0
  {
    if Count(events, minor) > 0 {
      var k := FirstIsFirst(events, minor);
      assert events[k].info.minor == minor;
    } else {
      NoneBefore(events, minor);
    }
  }

  /** `mean` is the exact quotient without its fraction: its multiple lies between zero and the sum, by less than
      one divisor. */
  predicate IsMeanOf(mean: int, sum: int, n: int) {
    if sum >= 0 then 0 <= n * mean <= sum < n * mean + n else n * mean - n < sum <= n * mean <= 0
  }

  /** In every run: a bucket has a record for exactly the minor ids of its events. The record holds how many events
      there were, the means of their signal strengths and times without fraction, and for the rest the fields of
      the first of them. */
  lemma BucketRecords(size: int, clock: int, leftover: int, steps: seq<Step>, i: nat, m: int) returns (k: int)
    requires i < |Run(size, clock, leftover, steps).buckets|
    ensures var h := Run(size, clock, leftover, steps);
      |h.segments| == |h.buckets| && (m in h.buckets[i].entries <==> Occurs(h.segments[i], m))
    ensures var h := Run(size, clock, leftover, steps);
      m in h.buckets[i].entries ==>
        var e, events := h.buckets[i].entries[m], h.segments[i];
        && FirstAt(events, m, k)
        && e.count == Count(events, m) > 0
        && IsMeanOf(e.rssi, SumRssi(events, m), e.count) && IsMeanOf(e.time, SumTime(events, m), e.count)
        && e == events[k].info.(isHeartbeat := events[k].isHeartbeat, count := e.count, rssi := e.rssi, time := e.time)
  {
    hide Run, Count, SumRssi, SumTime, First, Minors, TruncDiv;
    var h := Run(size, clock, leftover, steps);
    var events, entries := h.segments[i], h.buckets[i].entries;
    assert IsMeans(entries, events);
    OccursWhenCounted(events, m);
    CountPositive(events, m);
    k := 0;
    if m in entries {
      k := FirstIsFirst(events, m);
      TruncDivMeaning(SumRssi(events, m), Count(events, m));
      TruncDivMeaning(SumTime(events, m), Count(events, m));
    }
  }
}
