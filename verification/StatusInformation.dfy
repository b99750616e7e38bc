/** The counters and the last status of src2/StatusInformation.h. */
module StatusInformation {
  import opened CArith
  import opened SeqFacts
  import opened Wrappers
  import opened EventsWindow
  import W = WireFormat
  import B = ByteBuffer
  import S = SMA

  class Status {
    var rawEventCount: int
    var heartbeatCount: int
    const statusWindow: EventsWindow
    const heartbeatRSSI: S.Average
    var lastWindow: Option<Bucket>
    var lastStatus: map<W.Octets, W.Octets>
    /** All events added so far. */
    ghost var events: seq<Event>

    ghost predicate Valid()
      reads this, statusWindow, heartbeatRSSI, heartbeatRSSI.window
    {
      && heartbeatRSSI.Valid() && heartbeatRSSI.period == 30 && statusWindow.Abstract().Valid()
      && rawEventCount == |events| && heartbeatCount == |HeartbeatRSSIs(events)|
      && heartbeatRSSI.added == HeartbeatRSSIs(events)
    }

    constructor ()
      ensures Valid() && fresh(statusWindow) && fresh(heartbeatRSSI) && fresh(heartbeatRSSI.window)
      ensures events == [] && lastWindow == None && lastStatus == map[]
    {
      rawEventCount, heartbeatCount, lastWindow, lastStatus, events := 0, 0, None, map[], [];
      var window := new EventsWindow();
      var average := new S.Average(30);
      statusWindow, heartbeatRSSI := window, average;
    }

    /** Counts an event, averages it if it is a heartbeat, and adds it to the status window. */
    method AddEvent(e: Event, clock: int)
      requires Valid() && -0x8000_0000 <= e.info.rssi < 0x8000_0000
      modifies this, statusWindow, heartbeatRSSI, heartbeatRSSI.window
      ensures Valid() && events == old(events) + [e] && lastStatus == old(lastStatus)
      ensures statusWindow.Abstract() == old(statusWindow.Abstract()).After(e, clock)
      ensures lastWindow == if e.info.time < old(statusWindow.end) then old(lastWindow)
                            else Some(old(statusWindow.Abstract()).Current())
    {
      hide HeartbeatRSSIs, S.Average.Contents, S.LastOf;
      HeartbeatMore(events, e);
      WindowStaysValid(statusWindow.Abstract(), e, clock);
      rawEventCount := rawEventCount + 1;
      if e.isHeartbeat {
        heartbeatCount := heartbeatCount + 1;
        heartbeatRSSI.Add(e.info.rssi);
      }
      var window := statusWindow.AddEvent(e, clock);
      if window.Some? { lastWindow := window; }
      events := events + [e];
    }

    /** The truncated mean signal strength of the last thirty heartbeats. */
    method GetHeartbeatRSSI() returns (mean: int)
      requires Valid()
      ensures var rssis := HeartbeatRSSIs(events);
        if rssis == [] then mean == 0
        else (forall i :: 0 <= i < |rssis| ==> -128 <= rssis[i] <= 127) ==>
          && mean == TruncDiv(S.Sum(S.LastOf(rssis, 30)), if |rssis| < 30 then |rssis| else 30)
          && -128 <= mean <= 127
    {
      mean := heartbeatRSSI.Avg();
      ghost var rssis := HeartbeatRSSIs(events);
      if rssis != [] && forall i :: 0 <= i < |rssis| ==> -128 <= rssis[i] <= 127 {
        S.MeanIsExact(rssis, 30, -128, 127);
      }
    }

    /** Writes the named properties; a name that is missing is added with an empty value, as `operator[]`
        of the map does. */
    method EncodeLastStatus(buffer: B.Buffer, names: seq<W.Octets>)
      requires |names| < 0x8000_0000 && Sized(names, lastStatus)
      requires buffer.wpos == |buffer.buf|
      modifies this`lastStatus, buffer
      ensures W.Fits(Selected(names, old(lastStatus)))
      ensures buffer.buf == old(buffer.buf) + W.Properties(Selected(names, old(lastStatus)))
      ensures lastStatus == Completed(names, old(lastStatus))
    {
      hide B.Overwritten, W.Text, W.Int4, Selected, Completed;
      ghost var status := lastStatus;
      ghost var before := buffer.buf + W.Int4(|names|);
      buffer.PutInt(|names|);
      var i := 0;
      SelectedNone(status);
      assert names[..0] == [];
      assert before + [] == before;
      while i < |names|
        invariant 0 <= i <= |names| && buffer.wpos == |buffer.buf|
        invariant W.Fits(Selected(names[..i], status)) && |Selected(names[..i], status)| == i
        invariant buffer.buf == before + W.Pairs(Selected(names[..i], status))
        invariant lastStatus == Completed(names[..i], status)
      {
        SelectedMore(names, i, status);
        ghost var done := W.Pairs(Selected(names[..i], status));
        EncodeProperty(buffer, names[i], status);
        ConcatAssoc(before, done, W.Text(names[i]) + W.Text(ValueOf(status, names[i])));
        i := i + 1;
      }
      assert names[..i] == names;
    }

    /** Writes one property, and adds it if it is missing. */
    method EncodeProperty(buffer: B.Buffer, name: W.Octets, ghost status: map<W.Octets, W.Octets>)
      requires |name| < 0x1_0000_0000 && |ValueOf(status, name)| < 0x1_0000_0000
      requires name in lastStatus ==> lastStatus[name] == ValueOf(status, name)
      requires name !in lastStatus ==> name !in status
      requires buffer.wpos == |buffer.buf|
      modifies this`lastStatus, buffer
      ensures buffer.wpos == |buffer.buf|
      ensures buffer.buf == old(buffer.buf) + (W.Text(name) + W.Text(ValueOf(status, name)))
      ensures lastStatus == if name in old(lastStatus) then old(lastStatus) else old(lastStatus)[name := []]
    {
      hide B.Overwritten, W.Text;
      if name !in lastStatus { lastStatus := lastStatus[name := []]; }
      var value := lastStatus[name];
      buffer.WriteBytes(name);
      buffer.WriteBytes(value);
      ConcatAssoc(old(buffer.buf), W.Text(name), W.Text(value));
    }
  }

  function HeartbeatRSSIs(events: seq<Event>): seq<int> {
    if events == [] then []
    else HeartbeatRSSIs(Front(events)) + (if Last(events).isHeartbeat then [Last(events).info.rssi] else [])
  }

  lemma HeartbeatMore(events: seq<Event>, e: Event)
    ensures HeartbeatRSSIs(events + [e]) == HeartbeatRSSIs(events) + (if e.isHeartbeat then [e.info.rssi] else [])
  {
    Snoc(events, e);
  }

  lemma WindowStaysValid(w: Window, e: Event, clock: int)
    requires w.Valid()
    ensures w.After(e, clock).Valid()
  {
  }

  /** The value of a name, empty if it is missing. */
  function ValueOf(status: map<W.Octets, W.Octets>, name: W.Octets): W.Octets {
    if name in status then status[name] else []
  }

  predicate Sized(names: seq<W.Octets>, status: map<W.Octets, W.Octets>) {
    forall i :: 0 <= i < |names| ==> |names[i]| < 0x1_0000_0000 && |ValueOf(status, names[i])| < 0x1_0000_0000
  }

  function Selected(names: seq<W.Octets>, status: map<W.Octets, W.Octets>): (es: seq<W.Entry>)
    ensures |es| == |names|
  {
    if names == [] then [] else Selected(Front(names), status) + [(Last(names), ValueOf(status, Last(names)))]
  }

  function Completed(names: seq<W.Octets>, status: map<W.Octets, W.Octets>): (m: map<W.Octets, W.Octets>)
    ensures forall k :: k in status ==> k in m && m[k] == status[k]
    ensures forall k :: k in m ==> m[k] == ValueOf(status, k)
  {
    if names == [] then status
    else
      var m := Completed(Front(names), status);
      if Last(names) in m then m else m[Last(names) := []]
  }

  /** Completing twice is completing once with all the names. */
  lemma {:induction false} CompletedConcat(a: seq<W.Octets>, b: seq<W.Octets>, status: map<W.Octets, W.Octets>)
    ensures Completed(a + b, status) == Completed(b, Completed(a, status))
    decreases |b|
  {
    if b == [] {
      assert a + b == a;
    } else {
      assert Front(a + b) == a + Front(b) && Last(a + b) == Last(b);
      CompletedConcat(a, Front(b), status);
    }
  }

  predicate HasAll(names: seq<W.Octets>, status: map<W.Octets, W.Octets>) {
    forall i :: 0 <= i < |names| ==> names[i] in status
  }

  /** It changes nothing exactly if no name is missing. */
  lemma {:induction false} CompletedSame(names: seq<W.Octets>, status: map<W.Octets, W.Octets>)
    ensures Completed(names, status) == status <==> HasAll(names, status)
    decreases |names|
  {
    if names != [] {
      CompletedSame(Front(names), status);
      assert HasAll(names, status) <==> HasAll(Front(names), status) && Last(names) in status;
      CompletedHas(names, status);
    }
  }

  lemma {:induction false} CompletedHas(names: seq<W.Octets>, status: map<W.Octets, W.Octets>)
    ensures HasAll(names, Completed(names, status))
    decreases |names|
  {
    if names != [] {
      CompletedHas(Front(names), status);
      assert forall i :: 0 <= i < |names| - 1 ==> names[i] == Front(names)[i];
    }
  }

  /** What `EncodeLastStatus` appends is read back as the named properties with their values, exactly if none
      of them contains a null character. */
  lemma EncodedStatusReads(before: W.Octets, names: seq<W.Octets>, status: map<W.Octets, W.Octets>)
    requires W.Fits(Selected(names, status))
    ensures var buf := before + W.Properties(Selected(names, status));
      && W.IntAt(buf, |before|) == |names|
      && W.PairsAt(buf, |before| + 4, |names|).1 == |buf|
      && (W.PairsAt(buf, |before| + 4, |names|).0 == Selected(names, status) <==> W.AllNulFree(Selected(names, status)))
    ensures W.AllNulFree(Selected(names, status)) ==>
      var (read, end) := W.PairsAt(before + W.Properties(Selected(names, status)), |before| + 4, |names|);
      forall i :: 0 <= i < |names| ==>
        |read| == |names| && read[i].0 == names[i] && read[i].1 == if names[i] in status then status[names[i]] else []
  {
    SelectedAt(names, status);
    hide W.IntAt, W.PairsAt, W.Properties, Selected;
    var es := Selected(names, status);
    var list := W.Properties(es);
    assert before + list + [] == before + list;
    W.StandsInConcat(before, list, []);
    W.PropertiesRead(before + list, |before|, es);
    W.CutExact(es);
  }

  /** The pairs are the names in order, each with its value in the status, or an empty one. */
  lemma {:induction false} SelectedAt(names: seq<W.Octets>, status: map<W.Octets, W.Octets>)
    ensures forall i :: 0 <= i < |names| ==>
      Selected(names, status)[i] == (names[i], if names[i] in status then status[names[i]] else [])
    decreases |names|
  {
    if names != [] { SelectedAt(Front(names), status); }
  }

  lemma SelectedNone(status: map<W.Octets, W.Octets>)
    ensures Selected([], status) == [] && W.Pairs([]) == [] && Completed([], status) == status
  {
  }

  lemma SelectedMore(names: seq<W.Octets>, i: nat, status: map<W.Octets, W.Octets>)
    requires i < |names| && Sized(names, status)
    requires |names| < 0x8000_0000 && W.Fits(Selected(names[..i], status))
    ensures var es, value := Selected(names[..i + 1], status), ValueOf(status, names[i]);
      && W.Fits(es)
      && W.Pairs(es) == W.Pairs(Selected(names[..i], status)) + (W.Text(names[i]) + W.Text(value))
    ensures var m := Completed(names[..i], status);
      Completed(names[..i + 1], status) == if names[i] in m then m else m[names[i] := []]
  {
    hide W.Text, W.Pairs, Selected, Completed, ValueOf;
    var front, es := Selected(names[..i], status), Selected(names[..i + 1], status);
    var entry := (names[i], ValueOf(status, names[i]));
    OneMoreName(names, i, status);
    assert W.Fits(es) by {
      assert forall k :: 0 <= k < i ==> es[k] == front[k];
      assert es[i] == entry;
    }
    assert es[..i] == front;
    W.PairsUnfold(es);
  }

  lemma OneMoreName(names: seq<W.Octets>, i: nat, status: map<W.Octets, W.Octets>)
    requires i < |names|
    ensures Selected(names[..i + 1], status) == Selected(names[..i], status) + [(names[i], ValueOf(status, names[i]))]
    ensures var m := Completed(names[..i], status);
      Completed(names[..i + 1], status) == if names[i] in m then m else m[names[i] := []]
  {
    assert Front(names[..i + 1]) == names[..i] && Last(names[..i + 1]) == names[i];
  }
}
