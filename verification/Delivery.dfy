/** The hand-over of buckets and status snapshots to the consumer thread: src2/EventExchanger.cpp, the
    loop of src2/BeaconEventConsumer.cpp and the status fields of src2/StatusInformation.h, as a machine
    of three interleaved actors. */
module Delivery {
  import opened Wrappers
  import opened SeqFacts
  import W = WireFormat
  import I = StatusInformation

  type Properties = map<W.Octets, W.Octets>
  type Names = seq<W.Octets>

  // ----- the shared objects

  /** The contents of an exchanger. */
  datatype Exchange<T> = Exchange(events: seq<T>, putCount: int, takeCount: int)
  {
    function Put(e: T): Exchange<T> {
      Exchange(events + [e], putCount + 1, takeCount)
    }

    function Take(): (Exchange<T>, Option<T>) {
      if events == [] then (this, None) else (Exchange(events[1..], putCount, takeCount + 1), Some(events[0]))
    }
  }

  /** Each method runs under the exchanger's lock, as one step. */
  class EventExchanger<T> {
    var events: seq<T>
    var putCount: int
    var takeCount: int

    function Abstract(): Exchange<T>
      reads this
    {
      Exchange(events, putCount, takeCount)
    }

    constructor ()
      ensures Abstract() == Exchange([], 0, 0)
    {
      events, putCount, takeCount := [], 0, 0;
    }

    method PutEvent(e: T)
      modifies this
      ensures Abstract() == old(Abstract()).Put(e)
    {
      events := events + [e];
      putCount := putCount + 1;
    }

    method TakeEvent() returns (e: Option<T>)
      modifies this
      ensures (Abstract(), e) == old(Abstract()).Take()
    {
      e := None;
      if events != [] {
        e := Some(events[0]);
        events := events[1..];
        takeCount := takeCount + 1;
      }
    }
  }

  // ----- the machine

  /** Where the consumer is in its loop, with the bucket it took, if any, and the status it copied, after it was
      completed by `names`. */
  datatype Phase<+T> =
    | ToTake
    | ToReadFlag(hand: Option<T>)
    | ToHandle(bucket: T)
    | ToCopyStatus(hand: Option<T>)
    | ToPublish(hand: Option<T>, index: nat, status: Properties, names: Names)
    | ToClearFlag(hand: Option<T>, index: nat)
  {
    function Hand(): Option<T> {
      match this
      case ToTake => None
      case ToHandle(b) => Some(b)
      case ToReadFlag(h) => h
      case ToCopyStatus(h) => h
      case ToPublish(h, _, _, _) => h
      case ToClearFlag(h, _) => h
    }

    /** Between copying a status and clearing the flag. */
    predicate Copied() {
      ToPublish? || ToClearFlag?
    }
  }

  /** What has become of a bucket that was taken. */
  datatype Fate = Handled | Dropped | InHand

  /** What happened so far: the buckets put, their fates once taken, for each whether the status flag was up
      when the consumer read it, and the buckets handled; the statuses set, for each the names encoded while it
      was the newest, whether the consumer copied it then, and whether its flag was raised while the consumer
      held a copy; the positions of the statuses published among the ones set, what was sent, the names encoded
      before it was copied, and whether a bucket was in hand. */
  datatype Record<T> = Record(
    puts: seq<T>, fates: seq<Fate>, flagUp: seq<bool>, handled: seq<T>,
    statuses: seq<Properties>, encoded: seq<Names>, copied: seq<bool>, raisedLate: seq<bool>,
    published: seq<nat>, sent: seq<Properties>, sentNames: seq<Names>, withBucket: seq<bool>)

  /** The shared state, the actors' positions, and the record. */
  datatype State<T> = State(
    exchange: Exchange<T>, lastStatus: Properties, statusUpdated: bool, setting: bool, phase: Phase<T>, past: Record<T>)

  datatype Step<T> =
    | Put(bucket: T)           // producer: putEvent
    | SetValue(status: Properties)      // monitor: the assignment in setLastStatus, under the status lock
    | SetFlag                  // monitor: the flag, before the lock is released
    | Encode(names: Names)     // monitor: encodeLastStatus, under the status lock
    | Take                     // consumer: takeEvent
    | ReadFlag                 // consumer: isStatusChanged
    | Handle                   // consumer: handleMessage
    | CopyStatus               // consumer: getLastStatus, under the status lock
    | Publish                  // consumer: publishProperties
    | ClearFlag                // consumer: clearStatusChanged
  {
    predicate ByMonitor() {
      SetValue? || SetFlag? || Encode?
    }
  }

  function Initial<T>(status: Properties): State<T> {
    State(Exchange([], 0, 0), status, false, false, ToTake, Record([], [], [], [], [], [], [], [], [], [], [], []))
  }

  predicate Enabled<T>(s: State<T>, step: Step<T>) {
    match step
    case Put(_) => true
    case SetValue(_) => !s.setting
    case SetFlag => s.setting
    case Encode(_) => !s.setting
    case Take => s.phase.ToTake?
    case ReadFlag => s.phase.ToReadFlag?
    case Handle => s.phase.ToHandle?
    case CopyStatus => s.phase.ToCopyStatus? && !s.setting
    case Publish => s.phase.ToPublish?
    case ClearFlag => s.phase.ToClearFlag?
  }

  /** The fates after the bucket in hand, if there is one, met `fate`. */
  function Settle<T>(fates: seq<Fate>, hand: Option<T>, fate: Fate): seq<Fate> {
    if hand.None? || fates == [] then fates else fates[..|fates| - 1] + [fate]
  }

  function Next<T>(s: State<T>, step: Step<T>): State<T>
    requires Enabled(s, step)
  {
    var past := s.past;
    match step
    case Put(b) => s.(exchange := s.exchange.Put(b), past := past.(puts := past.puts + [b]))
    case SetValue(v) =>
      s.(lastStatus := v, setting := true,
         past := past.(statuses := past.statuses + [v], encoded := past.encoded + [[]],
                       copied := past.copied + [false]))
    case Encode(names) =>
      var n := |past.encoded|;
      s.(lastStatus := I.Completed(names, s.lastStatus),
         past := if n > 0 then past.(encoded := past.encoded[n - 1 := past.encoded[n - 1] + names]) else past)
    case SetFlag =>
      s.(statusUpdated := true, setting := false,
         past := past.(raisedLate := past.raisedLate + [s.phase.Copied()]))
    case Take =>
      var (rest, e) := s.exchange.Take();
      s.(exchange := rest, phase := ToReadFlag(e),
         past := if e.Some? then past.(fates := past.fates + [InHand]) else past)
    case ReadFlag =>
      var hand := s.phase.hand;
      s.(phase := if s.statusUpdated then ToCopyStatus(hand) else if hand.Some? then ToHandle(hand.value) else ToTake,
         past := if hand.Some? then past.(flagUp := past.flagUp + [s.statusUpdated]) else past)
    case Handle =>
      s.(phase := ToTake, past := past.(handled := past.handled + [s.phase.bucket],
                                        fates := Settle(past.fates, s.phase.Hand(), Handled)))
    case CopyStatus =>
      var n := |past.statuses|;
      s.(phase := if 0 < n == |past.encoded| then ToPublish(s.phase.hand, n - 1, s.lastStatus, past.encoded[n - 1])
                  else ToPublish(s.phase.hand, 0, s.lastStatus, []),
         past := if 0 < n == |past.copied| then past.(copied := past.copied[n - 1 := true]) else past)
    case Publish =>
      s.(phase := ToClearFlag(s.phase.hand, s.phase.index),
         past := past.(published := past.published + [s.phase.index], sent := past.sent + [s.phase.status],
                       sentNames := past.sentNames + [s.phase.names],
                       withBucket := past.withBucket + [s.phase.hand.Some?]))
    case ClearFlag =>
      s.(phase := ToTake, statusUpdated := false,
         past := past.(fates := Settle(past.fates, s.phase.hand, Dropped)))
  }

  // ----- buckets

  /** The buckets that met `fate`, in the order in which they were put. */
  function Select<T>(puts: seq<T>, fates: seq<Fate>, fate: Fate): seq<T>
    requires |fates| <= |puts|
  {
    if fates == [] then [] else
    Select(puts, fates[..|fates| - 1], fate) + (if fates[|fates| - 1] == fate then [puts[|fates| - 1]] else [])
  }

  function Tally(fates: seq<Fate>, fate: Fate): nat {
    if fates == [] then 0
    else Tally(fates[..|fates| - 1], fate) + (if fates[|fates| - 1] == fate then 1 else 0)
  }

  function CountTrue(flags: seq<bool>): nat {
    if flags == [] then 0 else CountTrue(flags[..|flags| - 1]) + (if flags[|flags| - 1] then 1 else 0)
  }

  /** Every bucket put is waiting in the queue or has met exactly one fate; the handled ones were handled in
      the order of their puts; at most one is in hand. */
  ghost predicate Conserved<T>(s: State<T>) {
    var past, n := s.past, |s.past.fates|;
    && s.exchange.putCount == |past.puts| && s.exchange.takeCount == n <= |past.puts|
    && s.exchange.events == past.puts[n..]
    && past.handled == Select(past.puts, past.fates, Handled)
    && (forall i :: 0 <= i < n && past.fates[i] == InHand ==> i == n - 1 && s.phase.Hand() == Some(past.puts[i]))
    && (s.phase.Hand().Some? ==> n > 0 && past.fates[n - 1] == InHand)
  }

  /** A bucket that met its fate was dropped exactly if the flag was up when it was in hand; the one in hand
      will be. */
  ghost predicate FlagDecides<T>(s: State<T>) {
    var past, n := s.past, |s.past.fates|;
    && |past.flagUp| == n - (if s.phase.ToReadFlag? && s.phase.hand.Some? then 1 else 0)
    && (forall i :: 0 <= i < |past.flagUp| && past.fates[i] != InHand ==>
          (past.fates[i] == Dropped <==> past.flagUp[i]))
    && (s.phase.Hand().Some? && !s.phase.ToReadFlag? ==> n > 0 && (past.flagUp[n - 1] <==> !s.phase.ToHandle?))
  }

  /** The buckets dropped, with the one about to be, are as many as the publications with a bucket in hand. */
  ghost predicate DropsCounted<T>(s: State<T>) {
    && |s.past.withBucket| == |s.past.published|
    && Tally(s.past.fates, Dropped) + (if s.phase.ToClearFlag? && s.phase.hand.Some? then 1 else 0)
       == CountTrue(s.past.withBucket)
  }

  // ----- statuses

  function Newest<T>(s: State<T>): int {
    |s.past.statuses| - 1
  }

  function LastPublished<T>(s: State<T>): int {
    if s.past.published == [] then -1 else s.past.published[|s.past.published| - 1]
  }

  /** The published snapshots are a strictly increasing selection of the statuses set, each completed by the
      names that had been encoded by then. */
  ghost predicate Increasing<T>(past: Record<T>) {
    && |past.sent| == |past.published| == |past.sentNames| && |past.encoded| == |past.statuses|
    && (forall i :: 0 <= i < |past.published| ==> past.published[i] < |past.statuses| && Snapshot(past, i))
    && (forall i, j :: 0 <= i < j < |past.published| ==> past.published[i] < past.published[j])
  }

  ghost predicate Snapshot<T>(past: Record<T>, i: int)
    requires |past.sent| == |past.published| == |past.sentNames| && |past.encoded| == |past.statuses|
    requires 0 <= i < |past.published| && past.published[i] < |past.statuses|
  {
    && past.sentNames[i] <= past.encoded[past.published[i]]
    && past.sent[i] == I.Completed(past.sentNames[i], past.statuses[past.published[i]])
  }

  /** What keeps them so: the flag is up only for a status that was not yet published. */
  ghost predicate FlagMeansNews<T>(s: State<T>) {
    && |s.past.encoded| == |s.past.statuses|
    && |s.past.raisedLate| == |s.past.statuses| - (if s.setting then 1 else 0)
    && (s.setting ==> LastPublished(s) < Newest(s))
    && match s.phase
       case ToPublish(_, k, _, _) => LastPublished(s) < k <= Newest(s) && (s.setting ==> k < Newest(s))
       case ToClearFlag(_, k) => LastPublished(s) == k && (s.setting ==> k < Newest(s))
       case ToCopyStatus(_) => LastPublished(s) < Newest(s)
       case _ => s.statusUpdated ==> LastPublished(s) < Newest(s)
  }

  /** What the shared status and the consumer's copy hold. */
  ghost predicate StatusCompleted<T>(s: State<T>) {
    var past, n := s.past, |s.past.statuses|;
    && |past.encoded| == n
    && (n > 0 ==> s.lastStatus == I.Completed(past.encoded[n - 1], past.statuses[n - 1]))
    && (s.phase.ToPublish? && s.phase.index < n ==>
          && s.phase.names <= past.encoded[s.phase.index]
          && s.phase.status == I.Completed(s.phase.names, past.statuses[s.phase.index]))
  }

  predicate IsPublished<T>(past: Record<T>, i: int) {
    exists j :: 0 <= j < |past.published| && past.published[j] == i
  }

  /** A status has been published, or is about to be, exactly if it was copied while it was the newest. */
  ghost predicate CopiesPublished<T>(s: State<T>) {
    && |s.past.copied| == |s.past.statuses|
    && forall i :: 0 <= i < |s.past.copied| ==>
         (s.past.copied[i] <==> IsPublished(s.past, i) || (s.phase.ToPublish? && s.phase.index == i))
  }

  /** Whether the flag of the newest status was raised while the consumer held a copy of an older one. */
  predicate NewestRaisedLate<T>(s: State<T>) {
    s.past.raisedLate != [] && s.past.raisedLate[|s.past.raisedLate| - 1]
  }

  /** With the flag down, no status being set and none being published, nothing more will be published. */
  predicate StatusSettled<T>(s: State<T>) {
    !s.phase.Copied() && !s.phase.ToCopyStatus? && !s.statusUpdated && !s.setting
  }

  /** The newest status is then lost exactly when its flag was raised late. */
  ghost predicate LostWhenRaisedLate<T>(s: State<T>) {
    && (s.phase.Copied() && !s.setting ==> (s.phase.index == Newest(s) <==> !NewestRaisedLate(s)))
    && (!s.phase.Copied() && !s.setting && (s.statusUpdated || s.phase.ToCopyStatus?) ==> !NewestRaisedLate(s))
    && (StatusSettled(s) ==> (LastPublished(s) == Newest(s) <==> !NewestRaisedLate(s)))
  }

  ghost predicate Invariant<T>(s: State<T>) {
    && Conserved(s) && FlagDecides(s) && DropsCounted(s)
    && Increasing(s.past) && FlagMeansNews(s) && StatusCompleted(s) && CopiesPublished(s) && LostWhenRaisedLate(s)
  }

  // ----- every step keeps the invariant

  lemma {:induction false} SelectOfMore<T>(puts: seq<T>, more: seq<T>, fates: seq<Fate>, fate: Fate)
    requires |fates| <= |puts|
    ensures Select(puts + more, fates, fate) == Select(puts, fates, fate)
  {
    if fates != [] { SelectOfMore(puts, more, fates[..|fates| - 1], fate); }
  }

  lemma SettleEffect<T>(puts: seq<T>, fates: seq<Fate>, f: Fate)
    requires 0 < |fates| <= |puts| && fates[|fates| - 1] == InHand && f != InHand
    ensures var n := |fates|; var settled := fates[..n - 1] + [f];
      && Select(puts, settled, Handled) == Select(puts, fates, Handled) + (if f == Handled then [puts[n - 1]] else [])
      && Tally(settled, Dropped) == Tally(fates, Dropped) + (if f == Dropped then 1 else 0)
  {
    var n := |fates|;
    var settled := fates[..n - 1] + [f];
    assert settled[..n - 1] == fates[..n - 1];
  }

  lemma TakenEffect<T>(puts: seq<T>, fates: seq<Fate>)
    requires |fates| < |puts|
    ensures Select(puts, fates + [InHand], Handled) == Select(puts, fates, Handled)
    ensures Tally(fates + [InHand], Dropped) == Tally(fates, Dropped)
  {
    assert (fates + [InHand])[..|fates|] == fates;
  }

  lemma TakeConserves<T>(s: State<T>)
    requires s.phase.ToTake? && Conserved(s)
    ensures Conserved(Next(s, Step<T>.Take))
  {
    hide Select, Tally;
    if s.exchange.events != [] {
      TakenEffect(s.past.puts, s.past.fates);
      DropDrop(s.past.puts, |s.past.fates|, 1);
      assert s.exchange.events[0] == s.past.puts[|s.past.fates|];
    }
  }

  lemma HandleConserves<T>(s: State<T>)
    requires s.phase.ToHandle? && Conserved(s)
    ensures Conserved(Next(s, Step<T>.Handle))
  {
    SettleEffect(s.past.puts, s.past.fates, Handled);
    assert s.phase.bucket == s.past.puts[|s.past.fates| - 1];
  }

  lemma ClearConserves<T>(s: State<T>)
    requires s.phase.ToClearFlag? && Conserved(s)
    ensures Conserved(Next(s, Step<T>.ClearFlag))
  {
    if s.phase.hand.Some? { SettleEffect(s.past.puts, s.past.fates, Dropped); }
  }

  lemma PutConserves<T>(s: State<T>, b: T)
    requires Conserved(s)
    ensures Conserved(Next(s, Step<T>.Put(b)))
  {
    SelectOfMore(s.past.puts, [b], s.past.fates, Handled);
  }

  lemma StepConserves<T>(s: State<T>, step: Step<T>)
    requires Enabled(s, step) && Conserved(s)
    ensures Conserved(Next(s, step))
  {
    match step
    case Put(b) => PutConserves(s, b);
    case Take => TakeConserves(s);
    case Handle => HandleConserves(s);
    case ClearFlag => ClearConserves(s);
    case _ =>
  }

  lemma StepKeepsDecisions<T>(s: State<T>, step: Step<T>)
    requires Enabled(s, step) && Conserved(s) && FlagDecides(s)
    ensures FlagDecides(Next(s, step))
  {
    hide Select;
  }

  lemma StepCountsDrops<T>(s: State<T>, step: Step<T>)
    requires Enabled(s, step) && Conserved(s) && DropsCounted(s)
    ensures DropsCounted(Next(s, step))
  {
    hide Select, Tally, CountTrue;
    match step
    case Take => if s.exchange.events != [] { TakenEffect(s.past.puts, s.past.fates); }
    case Handle => SettleEffect(s.past.puts, s.past.fates, Handled);
    case ClearFlag => if s.phase.hand.Some? { SettleEffect(s.past.puts, s.past.fates, Dropped); }
    case Publish => CountMore(s.past.withBucket, s.phase.hand.Some?);
    case _ =>
  }

  lemma CountMore(flags: seq<bool>, b: bool)
    ensures CountTrue(flags + [b]) == CountTrue(flags) + (if b then 1 else 0)
  {
    assert (flags + [b])[..|flags|] == flags;
  }

  lemma StepKeepsOrder<T>(s: State<T>, step: Step<T>)
    requires Enabled(s, step) && Increasing(s.past) && FlagMeansNews(s) && StatusCompleted(s)
    ensures Increasing(Next(s, step).past)
  {
    hide I.Completed;
    match step
    case Publish => PublishKeepsOrder(s);
    case SetValue(v) => SetKeepsOrder(s, v);
    case Encode(names) => EncodeKeepsOrder(s, names);
    case _ => SameRecordKeepsOrder(s.past, Next(s, step).past);
  }

  lemma PublishKeepsOrder<T>(s: State<T>)
    requires s.phase.ToPublish? && Increasing(s.past) && FlagMeansNews(s) && StatusCompleted(s)
    ensures Increasing(Next(s, Step<T>.Publish).past)
  {
    hide I.Completed, FlagMeansNews;
    PublishedBelow(s);
    var past, now := s.past, Next(s, Step<T>.Publish).past;
    forall i | 0 <= i < |now.published| ensures now.published[i] < |now.statuses| && Snapshot(now, i) {
      if i < |past.published| { assert Snapshot(past, i); }
    }
  }

  /** What was published comes before what is about to be. */
  lemma PublishedBelow<T>(s: State<T>)
    requires s.phase.ToPublish? && Increasing(s.past) && FlagMeansNews(s)
    ensures s.phase.index < |s.past.statuses|
    ensures forall i :: 0 <= i < |s.past.published| ==> s.past.published[i] < s.phase.index
  {
    hide Snapshot;
  }

  lemma SetKeepsOrder<T>(s: State<T>, v: Properties)
    requires !s.setting && Increasing(s.past)
    ensures Increasing(Next(s, Step<T>.SetValue(v)).past)
  {
    hide I.Completed;
    var past, now := s.past, Next(s, Step<T>.SetValue(v)).past;
    forall i | 0 <= i < |now.published| ensures now.published[i] < |now.statuses| && Snapshot(now, i) {
      assert Snapshot(past, i);
    }
  }

  lemma EncodeKeepsOrder<T>(s: State<T>, names: Names)
    requires !s.setting && Increasing(s.past)
    ensures Increasing(Next(s, Step<T>.Encode(names)).past)
  {
    hide I.Completed;
    var past, now := s.past, Next(s, Step<T>.Encode(names)).past;
    forall i | 0 <= i < |now.published| ensures now.published[i] < |now.statuses| && Snapshot(now, i) {
      assert Snapshot(past, i);
      assert past.encoded[past.published[i]] <= now.encoded[past.published[i]];
    }
  }

  lemma SameRecordKeepsOrder<T>(past: Record<T>, now: Record<T>)
    requires Increasing(past)
    requires now.published == past.published && now.sent == past.sent && now.sentNames == past.sentNames
    requires now.statuses == past.statuses && now.encoded == past.encoded
    ensures Increasing(now)
  {
    forall i | 0 <= i < |now.published| ensures Snapshot(now, i) { assert Snapshot(past, i); }
  }

  lemma StepCompletesStatus<T>(s: State<T>, step: Step<T>)
    requires Enabled(s, step) && StatusCompleted(s) && (s.phase.ToCopyStatus? ==> s.past.statuses != [])
    requires s.phase.ToPublish? ==> s.phase.index < |s.past.statuses|
    ensures StatusCompleted(Next(s, step))
  {
    hide I.Completed;
    match step
    case SetValue(v) => I.SelectedNone(v);
    case Encode(names) => EncodeCompletesStatus(s, names);
    case _ =>
  }

  lemma EncodeCompletesStatus<T>(s: State<T>, names: Names)
    requires !s.setting && StatusCompleted(s)
    ensures StatusCompleted(Next(s, Step<T>.Encode(names)))
  {
    hide I.Completed;
    var n := |s.past.statuses|;
    if n > 0 { I.CompletedConcat(s.past.encoded[n - 1], names, s.past.statuses[n - 1]); }
  }

  lemma StepKeepsFlag<T>(s: State<T>, step: Step<T>)
    requires Enabled(s, step) && Increasing(s.past) && FlagMeansNews(s)
    ensures FlagMeansNews(Next(s, step))
  {
    if step.ByMonitor() { MonitorKeepsFlag(s, step); } else { ConsumerKeepsFlag(s, step); }
  }

  lemma MonitorKeepsFlag<T>(s: State<T>, step: Step<T>)
    requires Enabled(s, step) && step.ByMonitor()
    requires Increasing(s.past) && FlagMeansNews(s)
    ensures FlagMeansNews(Next(s, step))
  {
    match step
    case SetValue(v) => SetKeepsFlag(s, v);
    case SetFlag => RaiseKeepsFlag(s);
    case Encode(names) => EncodeKeepsFlag(s, names);
  }

  lemma SetKeepsFlag<T>(s: State<T>, v: Properties)
    requires !s.setting && Increasing(s.past) && FlagMeansNews(s)
    ensures FlagMeansNews(Next(s, Step<T>.SetValue(v)))
  {
    hide Snapshot;
  }

  lemma RaiseKeepsFlag<T>(s: State<T>)
    requires s.setting && FlagMeansNews(s)
    ensures FlagMeansNews(Next(s, Step<T>.SetFlag))
  {
  }

  lemma EncodeKeepsFlag<T>(s: State<T>, names: Names)
    requires !s.setting && FlagMeansNews(s)
    ensures FlagMeansNews(Next(s, Step<T>.Encode(names)))
  {
    hide I.Completed;
  }

  lemma ConsumerKeepsFlag<T>(s: State<T>, step: Step<T>)
    requires Enabled(s, step) && !step.ByMonitor() && Increasing(s.past) && FlagMeansNews(s)
    ensures FlagMeansNews(Next(s, step))
  {
    if step.Publish? { PublishKeepsFlag(s); } else { RestKeepsFlag(s, step); }
  }

  lemma PublishKeepsFlag<T>(s: State<T>)
    requires s.phase.ToPublish? && FlagMeansNews(s)
    ensures FlagMeansNews(Next(s, Step<T>.Publish))
  {
  }

  lemma RestKeepsFlag<T>(s: State<T>, step: Step<T>)
    requires Enabled(s, step) && !step.ByMonitor() && !step.Publish? && FlagMeansNews(s)
    ensures FlagMeansNews(Next(s, step))
  {
  }

  lemma StepPublishesCopies<T>(s: State<T>, step: Step<T>)
    requires Enabled(s, step) && Increasing(s.past) && FlagMeansNews(s) && CopiesPublished(s)
    ensures CopiesPublished(Next(s, step))
  {
    match step
    case Publish => PublishPublishesCopy(s);
    case CopyStatus => CopyPublishesCopy(s);
    case SetValue(v) => SetPublishesCopies(s, v);
    case _ => RestPublishesCopies(s, step);
  }

  lemma PublishPublishesCopy<T>(s: State<T>)
    requires s.phase.ToPublish? && CopiesPublished(s)
    ensures CopiesPublished(Next(s, Step<T>.Publish))
  {
    hide IsPublished;
    var t := Next(s, Step<T>.Publish);
    forall i ensures IsPublished(t.past, i) <==> IsPublished(s.past, i) || s.phase.index == i {
      PublishedMore(s.past.published, s.phase.index, i, s.past, t.past);
    }
  }

  lemma CopyPublishesCopy<T>(s: State<T>)
    requires s.phase.ToCopyStatus? && !s.setting && FlagMeansNews(s) && CopiesPublished(s)
    ensures CopiesPublished(Next(s, Step<T>.CopyStatus))
  {
    hide IsPublished;
    var t := Next(s, Step<T>.CopyStatus);
    CopyHasStatus(s);
    forall i ensures IsPublished(t.past, i) <==> IsPublished(s.past, i) { SamePublished(s.past, t.past, i); }
  }

  lemma SetPublishesCopies<T>(s: State<T>, v: Properties)
    requires !s.setting && Increasing(s.past) && FlagMeansNews(s) && CopiesPublished(s)
    ensures CopiesPublished(Next(s, Step<T>.SetValue(v)))
  {
    hide IsPublished, Increasing, FlagMeansNews;
    var t := Next(s, Step<T>.SetValue(v));
    forall i ensures IsPublished(t.past, i) <==> IsPublished(s.past, i) { SamePublished(s.past, t.past, i); }
    NotYetPublished(s);
  }

  lemma RestPublishesCopies<T>(s: State<T>, step: Step<T>)
    requires Enabled(s, step) && !step.Publish? && !step.CopyStatus? && !step.SetValue? && CopiesPublished(s)
    ensures CopiesPublished(Next(s, step))
  {
    hide IsPublished;
    var t := Next(s, step);
    forall i ensures IsPublished(t.past, i) <==> IsPublished(s.past, i) { SamePublished(s.past, t.past, i); }
  }

  lemma SamePublished<T>(past: Record<T>, now: Record<T>, i: int)
    requires past.published == now.published
    ensures IsPublished(now, i) <==> IsPublished(past, i)
  {
  }

  /** A status that was never set was never published, nor is about to be. */
  lemma NotYetPublished<T>(s: State<T>)
    requires Increasing(s.past) && FlagMeansNews(s)
    ensures !IsPublished(s.past, |s.past.statuses|)
    ensures s.phase.ToPublish? ==> s.phase.index < |s.past.statuses|
  {
  }

  lemma PublishedMore<T>(published: seq<nat>, k: nat, i: int, past: Record<T>, now: Record<T>)
    requires past.published == published && now.published == published + [k]
    ensures IsPublished(now, i) <==> IsPublished(past, i) || k == i
  {
    assert now.published[|published|] == k;
    if IsPublished(past, i) {
      var j :| 0 <= j < |past.published| && past.published[j] == i;
      assert now.published[j] == i;
    }
  }

  lemma StepKeepsLosses<T>(s: State<T>, step: Step<T>)
    requires Enabled(s, step) && Increasing(s.past) && FlagMeansNews(s) && LostWhenRaisedLate(s)
    ensures LostWhenRaisedLate(Next(s, step))
  {
    if step.ByMonitor() { MonitorKeepsLosses(s, step); } else { ConsumerKeepsLosses(s, step); }
  }

  lemma MonitorKeepsLosses<T>(s: State<T>, step: Step<T>)
    requires Enabled(s, step) && step.ByMonitor()
    requires Increasing(s.past) && FlagMeansNews(s) && LostWhenRaisedLate(s)
    ensures LostWhenRaisedLate(Next(s, step))
  {
    match step
    case SetValue(v) => SetKeepsLosses(s, v);
    case SetFlag => RaiseKeepsLosses(s);
    case Encode(names) => EncodeKeepsLosses(s, names);
  }

  lemma SetKeepsLosses<T>(s: State<T>, v: Properties)
    requires !s.setting && LostWhenRaisedLate(s)
    ensures LostWhenRaisedLate(Next(s, Step<T>.SetValue(v)))
  {
  }

  lemma RaiseKeepsLosses<T>(s: State<T>)
    requires s.setting && FlagMeansNews(s) && LostWhenRaisedLate(s)
    ensures LostWhenRaisedLate(Next(s, Step<T>.SetFlag))
  {
  }

  lemma EncodeKeepsLosses<T>(s: State<T>, names: Names)
    requires !s.setting && LostWhenRaisedLate(s)
    ensures LostWhenRaisedLate(Next(s, Step<T>.Encode(names)))
  {
    hide I.Completed;
  }

  lemma ConsumerKeepsLosses<T>(s: State<T>, step: Step<T>)
    requires Enabled(s, step) && !step.ByMonitor()
    requires Increasing(s.past) && FlagMeansNews(s) && LostWhenRaisedLate(s)
    ensures LostWhenRaisedLate(Next(s, step))
  {
    match step
    case Publish => PublishKeepsLosses(s);
    case CopyStatus => CopyKeepsLosses(s);
    case ClearFlag => ClearKeepsLosses(s);
    case ReadFlag => ReadKeepsLosses(s);
    case _ => RestKeepsLosses(s, step);
  }

  lemma CopyKeepsLosses<T>(s: State<T>)
    requires s.phase.ToCopyStatus? && !s.setting && FlagMeansNews(s) && LostWhenRaisedLate(s)
    ensures LostWhenRaisedLate(Next(s, Step<T>.CopyStatus))
  {
  }

  lemma ClearKeepsLosses<T>(s: State<T>)
    requires s.phase.ToClearFlag? && FlagMeansNews(s) && LostWhenRaisedLate(s)
    ensures LostWhenRaisedLate(Next(s, Step<T>.ClearFlag))
  {
  }

  lemma ReadKeepsLosses<T>(s: State<T>)
    requires s.phase.ToReadFlag? && LostWhenRaisedLate(s)
    ensures LostWhenRaisedLate(Next(s, Step<T>.ReadFlag))
  {
  }

  lemma PublishKeepsLosses<T>(s: State<T>)
    requires s.phase.ToPublish? && LostWhenRaisedLate(s)
    ensures LostWhenRaisedLate(Next(s, Step<T>.Publish))
  {
  }

  lemma RestKeepsLosses<T>(s: State<T>, step: Step<T>)
    requires Enabled(s, step) && (step.Put? || step.Take? || step.Handle?) && LostWhenRaisedLate(s)
    ensures LostWhenRaisedLate(Next(s, step))
  {
  }

  // ----- whole runs

  /** The state after some steps of the three actors, in any interleaving that the locks allow. */
  function Execute<T>(status: Properties, steps: seq<Step<T>>): Option<State<T>>
    decreases |steps|
  {
    if steps == [] then Some(Initial(status)) else
    match Execute(status, steps[..|steps| - 1])
    case None => None
    case Some(s) => if Enabled(s, steps[|steps| - 1]) then Some(Next(s, steps[|steps| - 1])) else None
  }

  ghost predicate Reaches<T>(status: Properties, steps: seq<Step<T>>, s: State<T>) {
    Execute(status, steps) == Some(s)
  }

  lemma {:induction false} RunsKeepInvariant<T>(status: Properties, steps: seq<Step<T>>, s: State<T>)
    requires Reaches(status, steps, s)
    ensures Invariant(s)
    decreases |steps|
  {
    hide Conserved, FlagDecides, DropsCounted, Increasing, FlagMeansNews, StatusCompleted, CopiesPublished;
    hide LostWhenRaisedLate, Next;
    if steps == [] {
      StartKeeps<T>(status);
    } else {
      var before, last := Execute(status, steps[..|steps| - 1]).value, steps[|steps| - 1];
      RunsKeepInvariant(status, steps[..|steps| - 1], before);
      StepConserves(before, last);
      StepKeepsDecisions(before, last);
      StepCountsDrops(before, last);
      StepKeepsOrder(before, last);
      StepKeepsFlag(before, last);
      CopyHasStatus(before);
      StepCompletesStatus(before, last);
      StepPublishesCopies(before, last);
      StepKeepsLosses(before, last);
    }
  }

  lemma {:induction false} SelectCounts<T>(puts: seq<T>, fates: seq<Fate>, fate: Fate)
    requires |fates| <= |puts|
    ensures |Select(puts, fates, fate)| == Tally(fates, fate)
    ensures Tally(fates, Handled) + Tally(fates, Dropped) + Tally(fates, InHand) == |fates|
  {
    if fates != [] { SelectCounts(puts, fates[..|fates| - 1], fate); }
  }

  lemma {:induction false} AtMostOneInHand(fates: seq<Fate>)
    requires forall i :: 0 <= i < |fates| - 1 ==> fates[i] != InHand
    ensures Tally(fates, InHand) == if fates != [] && fates[|fates| - 1] == InHand then 1 else 0
  {
    if fates != [] {
      NoneInHand(fates[..|fates| - 1]);
    }
  }

  lemma {:induction false} NoneInHand(fates: seq<Fate>)
    requires forall i :: 0 <= i < |fates| ==> fates[i] != InHand
    ensures Tally(fates, InHand) == 0
  {
    if fates != [] { NoneInHand(fates[..|fates| - 1]); }
  }

  lemma CopyHasStatus<T>(s: State<T>)
    requires FlagMeansNews(s)
    ensures s.phase.ToCopyStatus? ==> s.past.statuses != []
    ensures s.phase.ToPublish? ==> s.phase.index < |s.past.statuses|
  {
  }

  lemma StartKeeps<T>(status: Properties)
    ensures Invariant(Initial<T>(status))
  {
  }

  /** Nothing is lost silently: in every reachable state the buckets put are the ones handled, the ones
      waiting, the one in hand and the ones dropped. A bucket whose fate is known was dropped exactly if the
      status flag was up when it was in hand; the dropped ones are as many as the publications that were made
      with a bucket in hand, less the one whose flag is not cleared yet. */
  lemma BucketsAccountedFor<T>(status: Properties, steps: seq<Step<T>>, s: State<T>)
    requires Reaches(status, steps, s)
    ensures s.exchange.putCount - s.exchange.takeCount == |s.exchange.events|
    ensures |s.past.fates| <= |s.past.puts| && s.past.handled == Select(s.past.puts, s.past.fates, Handled)
    ensures |s.past.puts| == |s.past.handled| + Tally(s.past.fates, Dropped)
      + (if s.phase.Hand().Some? then 1 else 0) + |s.exchange.events|
    ensures |s.past.flagUp| <= |s.past.fates|
    ensures forall i :: 0 <= i < |s.past.fates| && s.past.fates[i] != InHand ==>
      i < |s.past.flagUp| && (s.past.fates[i] == Dropped <==> s.past.flagUp[i])
    ensures Tally(s.past.fates, Dropped) + (if s.phase.ToClearFlag? && s.phase.hand.Some? then 1 else 0)
      == CountTrue(s.past.withBucket)
  {
    hide Reaches, Increasing, FlagMeansNews, StatusCompleted, CopiesPublished, LostWhenRaisedLate;
    hide Select, Tally, CountTrue;
    RunsKeepInvariant(status, steps, s);
    SelectCounts(s.past.puts, s.past.fates, Handled);
    AtMostOneInHand(s.past.fates);
  }

  predicate NoneDropped(fates: seq<Fate>) {
    forall i :: 0 <= i < |fates| ==> fates[i] != Dropped
  }

  predicate NoneTrue(flags: seq<bool>) {
    forall i :: 0 <= i < |flags| ==> !flags[i]
  }

  /** With no flag waiting to be cleared, no bucket has been lost exactly if no publication was made with a
      bucket in hand; then the buckets handled are the first ones put, in order and without a gap. */
  lemma NoBucketLost<T>(status: Properties, steps: seq<Step<T>>, s: State<T>)
    requires Reaches(status, steps, s) && !s.phase.ToClearFlag?
    ensures (if s.phase.Hand().Some? then 1 else 0) <= |s.past.fates| <= |s.past.puts|
    ensures NoneDropped(s.past.fates) <==> NoneTrue(s.past.withBucket)
    ensures NoneDropped(s.past.fates) <==>
      s.past.handled == s.past.puts[..|s.past.fates| - (if s.phase.Hand().Some? then 1 else 0)]
  {
    BucketsAccountedFor(status, steps, s);
    RunsKeepInvariant(status, steps, s);
    NoDropsTallied(s.past.fates);
    NoneCounted(s.past.withBucket);
    SelectCounts(s.past.puts, s.past.fates, Handled);
    AtMostOneInHand(s.past.fates);
    if NoneDropped(s.past.fates) { AllSelected(s.past.puts, s.past.fates); }
  }

  lemma {:induction false} NoDropsTallied(fates: seq<Fate>)
    ensures Tally(fates, Dropped) == 0 <==> NoneDropped(fates)
  {
    if fates != [] {
      NoDropsTallied(fates[..|fates| - 1]);
      assert NoneDropped(fates) <==> NoneDropped(fates[..|fates| - 1]) && fates[|fates| - 1] != Dropped;
    }
  }

  lemma {:induction false} NoneCounted(flags: seq<bool>)
    ensures CountTrue(flags) == 0 <==> NoneTrue(flags)
  {
    if flags != [] {
      NoneCounted(flags[..|flags| - 1]);
      assert NoneTrue(flags) <==> NoneTrue(flags[..|flags| - 1]) && !flags[|flags| - 1];
    }
  }

  /** If none was dropped and only the last is in hand, the handled buckets are a prefix. */
  lemma {:induction false} AllSelected<T>(puts: seq<T>, fates: seq<Fate>)
    requires |fates| <= |puts| && NoneDropped(fates)
    requires forall i :: 0 <= i < |fates| - 1 ==> fates[i] != InHand
    ensures Select(puts, fates, Handled)
         == puts[..if fates != [] && fates[|fates| - 1] == InHand then |fates| - 1 else |fates|]
  {
    if fates != [] { AllSelected(puts, fates[..|fates| - 1]); }
  }

  /** Published snapshots are never repeated or reordered; each is its status, completed by names that the monitor
      encoded while it was the newest, and equal to it exactly if it had all of them. Every status that is not
      about to be sent was published exactly if the consumer copied it while it was the newest; and once things
      have settled, the newest status was published exactly if its flag was not raised late. */
  lemma StatusesAccountedFor<T>(status: Properties, steps: seq<Step<T>>, s: State<T>)
    requires Reaches(status, steps, s)
    ensures Increasing(s.past) && |s.past.copied| == |s.past.statuses|
    ensures forall i :: 0 <= i < |s.past.sent| ==>
      var v := s.past.statuses[s.past.published[i]];
      (s.past.sent[i] == v <==> I.HasAll(s.past.sentNames[i], v))
    ensures forall i :: 0 <= i < |s.past.statuses| && !(s.phase.ToPublish? && s.phase.index == i) ==>
      (IsPublished(s.past, i) <==> s.past.copied[i])
    ensures StatusSettled(s) ==>
      (LastPublished(s) == Newest(s) <==> !NewestRaisedLate(s))
  {
    hide I.Completed, I.HasAll;
    RunsKeepInvariant(status, steps, s);
    forall i | 0 <= i < |s.past.sent|
      ensures var v := s.past.statuses[s.past.published[i]];
        s.past.sent[i] == v <==> I.HasAll(s.past.sentNames[i], v)
    {
      assert Snapshot(s.past, i);
      I.CompletedSame(s.past.sentNames[i], s.past.statuses[s.past.published[i]]);
    }
  }

  // ----- runs that lose something

  /** A few steps one after the other; `None` if one of them is not possible. */
  function Perform<T>(s: State<T>, plan: seq<Step<T>>): Option<State<T>>
    decreases |plan|
  {
    if plan == [] then Some(s)
    else if Enabled(s, plan[0]) then Perform(Next(s, plan[0]), plan[1..])
    else None
  }

  lemma {:induction false} PerformReaches<T>(status: Properties, steps: seq<Step<T>>, s: State<T>,
      plan: seq<Step<T>>)
    requires Reaches(status, steps, s) && Perform(s, plan).Some?
    ensures Reaches(status, steps + plan, Perform(s, plan).value)
    decreases |plan|
  {
    hide Enabled, Next;
    if plan == [] {
      assert steps + plan == steps;
    } else {
      assert (steps + [plan[0]])[..|steps|] == steps;
      PerformReaches(status, steps + [plan[0]], Next(s, plan[0]), plan[1..]);
      assert steps + [plan[0]] + plan[1..] == steps + plan;
    }
  }

  /** Setting a status while the consumer is between iterations. */
  lemma StatusSet<T>(status: Properties, steps: seq<Step<T>>, s: State<T>, v: Properties)
      returns (more: seq<Step<T>>, t: State<T>)
    requires Reaches(status, steps, s) && !s.setting
    ensures Reaches(status, more, t)
    ensures t == s.(lastStatus := v, statusUpdated := true,
      past := s.past.(statuses := s.past.statuses + [v], encoded := s.past.encoded + [[]],
                      copied := s.past.copied + [false],
                      raisedLate := s.past.raisedLate + [s.phase.Copied()]))
  {
    hide Reaches;
    var plan := [Step<T>.SetValue(v), Step<T>.SetFlag];
    assert plan[1..] == [plan[1]] && plan[1..][1..] == [];
    var a := Next(s, plan[0]);
    assert Perform(a, plan[1..]) == Some(Next(a, plan[1]));
    PerformReaches(status, steps, s, plan);
    more, t := steps + plan, Perform(s, plan).value;
  }

  /** The first half of an iteration that finds the flag up. */
  lemma StatusCopied<T>(status: Properties, steps: seq<Step<T>>, s: State<T>)
      returns (more: seq<Step<T>>, t: State<T>)
    requires Reaches(status, steps, s) && s.phase.ToTake? && s.statusUpdated && !s.setting
    requires 0 < |s.past.statuses| == |s.past.copied| == |s.past.encoded|
    ensures Reaches(status, more, t)
    ensures var (rest, e) := s.exchange.Take();
      var n := |s.past.statuses| - 1;
      && t.exchange == rest && t.phase == ToPublish(e, n, s.lastStatus, s.past.encoded[n])
      && t.statusUpdated && !t.setting
      && t.past == s.past.(fates := if e.Some? then s.past.fates + [InHand] else s.past.fates,
           flagUp := if e.Some? then s.past.flagUp + [true] else s.past.flagUp, copied := s.past.copied[n := true])
  {
    hide Reaches;
    var plan := [Step<T>.Take, Step<T>.ReadFlag, Step<T>.CopyStatus];
    assert plan[1..] == [plan[1], plan[2]] && plan[1..][1..] == [plan[2]];
    PerformReaches(status, steps, s, plan);
    more, t := steps + plan, Perform(s, plan).value;
  }

  /** ... and the second half. */
  lemma StatusSent<T>(status: Properties, steps: seq<Step<T>>, s: State<T>)
      returns (more: seq<Step<T>>, t: State<T>)
    requires Reaches(status, steps, s) && s.phase.ToPublish?
    ensures Reaches(status, more, t)
    ensures t == s.(phase := ToTake, statusUpdated := false,
      past := s.past.(fates := Settle(s.past.fates, s.phase.hand, Dropped),
                      published := s.past.published + [s.phase.index],
                      sent := s.past.sent + [s.phase.status],
                      sentNames := s.past.sentNames + [s.phase.names],
                      withBucket := s.past.withBucket + [s.phase.hand.Some?]))
  {
    hide Reaches;
    var plan := [Step<T>.Publish, Step<T>.ClearFlag];
    assert plan[1..] == [plan[1]];
    PerformReaches(status, steps, s, plan);
    more, t := steps + plan, Perform(s, plan).value;
  }

  /** A bucket that is taken while a status waits is never handled, ... */
  lemma BucketDropped<T>(status: Properties, v: Properties, bucket: T) returns (steps: seq<Step<T>>, s: State<T>)
    ensures Reaches(status, steps, s)
    ensures s.past.puts == [bucket] && s.past.fates == [Dropped] && s.past.handled == [] && s.exchange.events == []
  {
    hide Reaches;
    var put := [Step<T>.Put(bucket)];
    assert Reaches(status, [], Initial<T>(status)) by { StartReached<T>(status); }
    assert put[1..] == [];
    PerformReaches(status, [], Initial<T>(status), put);
    steps, s := StatusSet(status, [] + put, Perform(Initial<T>(status), put).value, v);
    steps, s := StatusCopied(status, steps, s);
    steps, s := StatusSent(status, steps, s);
  }

  /** ... and a status that is set between the copy of the one before and the clearing of the flag is
      never published. */
  lemma StatusSkipped<T>(status: Properties, v: Properties, w: Properties) returns (steps: seq<Step<T>>, s: State<T>)
    ensures Reaches(status, steps, s) && StatusSettled(s)
    ensures s.past.statuses == [v, w] && s.past.sent == [v]
  {
    hide Reaches;
    StartReached<T>(status);
    steps, s := StatusSet(status, [], Initial<T>(status), v);
    steps, s := StatusCopied(status, steps, s);
    steps, s := StatusSet(status, steps, s, w);
    steps, s := StatusSent(status, steps, s);
  }

  lemma StartReached<T>(status: Properties)
    ensures Reaches(status, [], Initial<T>(status))
  {
  }
}
