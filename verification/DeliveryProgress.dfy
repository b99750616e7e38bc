/** The machine of producer, monitor and consumer never gets stuck, and everything can be delivered. */
module DeliveryProgress {
  import opened Wrappers
  import opened Delivery

  /** The consumer's next step, if it has to wait only for the status lock. */
  function ConsumerStep<T>(s: State<T>): Step<T> {
    match s.phase
    case ToTake => Take
    case ToReadFlag(_) => ReadFlag
    case ToHandle(_) => Handle
    case ToCopyStatus(_) => CopyStatus
    case ToPublish(_, _, _, _) => Publish
    case ToClearFlag(_, _) => ClearFlag
  }

  /** In every state: the producer can put; the monitor can raise the flag it has to raise, or else set or encode a
      status; and the consumer has exactly one step, which it can take unless it wants to copy the status while the
      monitor is setting one. */
  lemma ActorsGoOn<T>(s: State<T>, b: T, v: Properties, names: Names, step: Step<T>)
    ensures Enabled(s, Step<T>.Put(b))
    ensures Enabled(s, Step<T>.SetFlag) <==> s.setting
    ensures Enabled(s, Step<T>.SetValue(v)) <==> !s.setting
    ensures Enabled(s, Step<T>.Encode(names)) <==> !s.setting
    ensures Enabled(s, ConsumerStep(s)) <==> !(s.phase.ToCopyStatus? && s.setting)
    ensures Enabled(s, step) && !step.Put? && !step.ByMonitor() ==> step == ConsumerStep(s)
  {
  }

  /** How many steps the consumer is from its next iteration, at most. */
  function StepsLeft<T>(s: State<T>): nat {
    match s.phase
    case ToTake => 0
    case ToReadFlag(_) => 4
    case ToHandle(_) => 1
    case ToCopyStatus(_) => 3
    case ToPublish(_, _, _, _) => 2
    case ToClearFlag(_, _) => 1
  }

  lemma One<T>(status: Properties, steps: seq<Step<T>>, s: State<T>, step: Step<T>)
    requires Reaches(status, steps, s) && Enabled(s, step)
    ensures Reaches(status, steps + [step], Next(s, step))
  {
    assert (steps + [step])[..|steps|] == steps;
  }

  /** The consumer alone completes the iteration it is in. */
  lemma {:induction false} IterationEnds<T>(status: Properties, steps: seq<Step<T>>, s: State<T>)
      returns (more: seq<Step<T>>, t: State<T>)
    requires Reaches(status, steps, s) && !s.setting
    ensures Reaches(status, more, t) && t.phase.ToTake? && !t.setting
    ensures t.exchange.events == s.exchange.events && t.past.puts == s.past.puts && t.past.statuses == s.past.statuses
    ensures t.statusUpdated == if s.phase.ToTake? || s.phase.ToHandle? then s.statusUpdated else false
    decreases StepsLeft(s)
  {
    hide Reaches;
    if s.phase.ToTake? {
      more, t := steps, s;
    } else {
      One(status, steps, s, ConsumerStep(s));
      more, t := IterationEnds(status, steps + [ConsumerStep(s)], Next(s, ConsumerStep(s)));
    }
  }

  /** The consumer alone publishes a waiting status and empties the queue. */
  lemma {:induction false} QueueDrains<T>(status: Properties, steps: seq<Step<T>>, s: State<T>)
      returns (more: seq<Step<T>>, t: State<T>)
    requires Reaches(status, steps, s) && s.phase.ToTake? && !s.setting
    ensures Reaches(status, more, t) && t.phase.ToTake? && !t.setting && !t.statusUpdated
    ensures t.exchange.events == [] && t.past.puts == s.past.puts && t.past.statuses == s.past.statuses
    decreases |s.exchange.events|, if s.statusUpdated then 1 else 0
  {
    hide Reaches;
    if s.exchange.events == [] && !s.statusUpdated {
      more, t := steps, s;
    } else {
      One(status, steps, s, Step<T>.Take);
      more, t := IterationEnds(status, steps + [Step<T>.Take], Next(s, Step<T>.Take));
      more, t := QueueDrains(status, more, t);
    }
  }

  /** From every state that a run reaches, the run can go on until every bucket put has met its fate, the queue is
      empty, and no status waits to be published. */
  lemma EverythingSettles<T>(status: Properties, steps: seq<Step<T>>, s: State<T>)
      returns (more: seq<Step<T>>, t: State<T>)
    requires Reaches(status, steps, s)
    ensures Reaches(status, more, t) && StatusSettled(t)
    ensures t.past.puts == s.past.puts && t.past.statuses == s.past.statuses
    ensures t.exchange.events == [] && |t.past.fates| == |t.past.puts| && NoneHeld(t.past.fates)
  {
    hide Reaches;
    more, t := steps, s;
    if s.setting {
      One(status, steps, s, Step<T>.SetFlag);
      more, t := steps + [Step<T>.SetFlag], Next(s, Step<T>.SetFlag);
    }
    more, t := IterationEnds(status, more, t);
    more, t := QueueDrains(status, more, t);
    RunsKeepInvariant(status, more, t);
    AllMet(t);
  }

  predicate NoneHeld(fates: seq<Fate>) {
    forall i :: 0 <= i < |fates| ==> fates[i] != InHand
  }

  lemma AllMet<T>(t: State<T>)
    requires Conserved(t) && t.phase.ToTake? && t.exchange.events == []
    ensures |t.past.fates| == |t.past.puts| && NoneHeld(t.past.fates)
  {
  }
}
