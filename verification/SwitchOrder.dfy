/** Whole command lines do not depend on the order in which the switches were added. */
module SwitchOrder {
  import opened Switches

  /** Flags and names tell the switches apart. */
  predicate Distinct(sws: seq<Switch>) {
    ValidList(sws) && forall i, j :: 0 <= i < j < |sws| ==> sws[i].name != sws[j].name
  }

  /** The switch that the argument names, as its flag, its name, or in a combination. */
  predicate Touches(arg: string, delimiter: char, sw: Switch) {
    if Combined(arg, delimiter) then Names(arg, sw) else sw.Matches(arg)
  }

  function Touched(arg: string, delimiter: char, sw: Switch): Switch {
    if Touches(arg, delimiter, sw) then sw.Toggled() else sw
  }

  predicate SomeMatches(sws: seq<Switch>, arg: string) {
    exists k :: 0 <= k < |sws| && sws[k].Matches(arg)
  }

  predicate SomeFreeMatches(sws: seq<Switch>, arg: string) {
    exists k :: 0 <= k < |sws| && sws[k].Matches(arg) && sws[k].Settable()
  }

  /** Whether an argument is accepted, told by the switches as a set. */
  predicate Accepts(sws: seq<Switch>, arg: string, delimiter: char) {
    if Combined(arg, delimiter) then Acceptable(sws, arg)
    else if SomeMatches(sws, arg) then SomeFreeMatches(sws, arg)
    else (|arg| > 0 ==> arg[0] == FLAG_START) && AllBlank(arg)
  }

  /** An argument is the flag or the name of at most one switch. */
  lemma MatchesOne(sws: seq<Switch>, arg: string, i: nat, j: nat)
    requires Distinct(sws) && i < j < |sws|
    ensures !(sws[i].Matches(arg) && sws[j].Matches(arg))
  {
    if sws[i].Matches(arg) && sws[j].Matches(arg) {
      SameWord(sws[i], sws[j], arg);
    }
  }

  lemma SameWord(a: Switch, b: Switch, arg: string)
    requires a.Valid() && b.Valid() && a.Matches(arg) && b.Matches(arg)
    ensures (a.flag != "" && a.flag == b.flag) || a.name == b.name
  {
    assert [FLAG_START] + a.flag == arg ==> arg[1..] == a.flag;
    assert [FLAG_START] + b.flag == arg ==> arg[1..] == b.flag;
    assert [FLAG_START, FLAG_START] + a.name == arg ==> arg[2..] == a.name && arg[1] == FLAG_START;
    assert [FLAG_START, FLAG_START] + b.name == arg ==> arg[2..] == b.name && arg[1] == FLAG_START;
  }

  lemma DistinctTail(sws: seq<Switch>)
    requires Distinct(sws) && sws != []
    ensures Distinct(sws[1..])
  {
    ValidTail(sws);
    assert forall i :: 0 <= i < |sws[1..]| ==> sws[1..][i] == sws[i + 1];
  }

  lemma MatchSplit(sws: seq<Switch>, arg: string)
    requires sws != []
    ensures SomeMatches(sws, arg) <==> sws[0].Matches(arg) || SomeMatches(sws[1..], arg)
    ensures SomeFreeMatches(sws, arg) <==>
      (sws[0].Matches(arg) && sws[0].Settable()) || SomeFreeMatches(sws[1..], arg)
  {
    assert forall k :: 0 < k < |sws| ==> sws[1..][k - 1] == sws[k];
    assert forall k :: 0 <= k < |sws[1..]| ==> sws[k + 1] == sws[1..][k];
  }

  lemma OthersDoNotMatch(sws: seq<Switch>, arg: string)
    requires Distinct(sws) && sws != [] && sws[0].Matches(arg)
    ensures !SomeMatches(sws[1..], arg) && !SomeFreeMatches(sws[1..], arg)
  {
    forall k | 0 <= k < |sws[1..]| ensures !sws[1..][k].Matches(arg) {
      MatchesOne(sws, arg, 0, k + 1);
    }
  }

  /** The inner loop on an argument that is not a combination: the one switch that it names takes it. */
  lemma {:induction false} PassPlain(sws: seq<Switch>, arg: string, delimiter: char)
    requires Distinct(sws) && !Combined(arg, delimiter)
    ensures var r := Pass(sws, arg, delimiter);
      && (r == PassThrown <==> SomeMatches(sws, arg) && !SomeFreeMatches(sws, arg))
      && (r.Passed? ==> r.arg == arg && (r.matched <==> SomeMatches(sws, arg)))
      && (r.Passed? ==> forall i :: 0 <= i < |sws| ==>
            r.switches[i] == if sws[i].Matches(arg) then sws[i].Toggled() else sws[i])
    decreases |sws|
  {
    hide Switch.Matches, SomeMatches, SomeFreeMatches, Distinct, Combined;
    if sws == [] {
      NoneMatches(arg);
    } else {
      MatchSplit(sws, arg);
      if sws[0].Matches(arg) {
        OthersDoNotMatch(sws, arg);
        forall i | 0 < i < |sws| ensures !sws[i].Matches(arg) { MatchesOne(sws, arg, 0, i); }
      } else {
        DistinctTail(sws);
        PassPlain(sws[1..], arg, delimiter);
      }
    }
  }

  lemma NoneMatches(arg: string)
    ensures !SomeMatches([], arg) && !SomeFreeMatches([], arg)
  {
  }

  /** The inner loop on any argument, without regard to the order. */
  lemma PassTouches(sws: seq<Switch>, arg: string, delimiter: char)
    requires Distinct(sws) && delimiter != BLANK
    ensures var r := Pass(sws, arg, delimiter);
      && (r.Accepted() <==> Accepts(sws, arg, delimiter))
      && (r.Accepted() ==> forall i :: 0 <= i < |sws| ==> r.switches[i] == Touched(arg, delimiter, sws[i]))
  {
    hide Pass, Acceptable, SomeMatches, SomeFreeMatches, AllBlank, Switch.Matches, Place, Combined;
    if Combined(arg, delimiter) {
      PassMeaning(sws, arg, delimiter);
    } else {
      PassPlain(sws, arg, delimiter);
    }
  }

  lemma SameAccepted(sws: seq<Switch>, others: seq<Switch>, arg: string, delimiter: char)
    requires SameSwitches(sws, others)
    ensures Accepts(sws, arg, delimiter) <==> Accepts(others, arg, delimiter)
  {
    hide Acceptable, SomeMatches, SomeFreeMatches, SameSwitches, Combined, AllBlank;
    SameAcceptable(sws, others, arg);
    MatchMember(sws, others, arg);
    assert SameSwitches(others, sws) by { Swapped(sws, others); }
    MatchMember(others, sws, arg);
  }

  lemma Swapped(sws: seq<Switch>, others: seq<Switch>)
    requires SameSwitches(sws, others)
    ensures SameSwitches(others, sws)
  {
  }

  lemma MatchMember(sws: seq<Switch>, others: seq<Switch>, arg: string)
    requires SameSwitches(sws, others)
    ensures SomeMatches(sws, arg) ==> SomeMatches(others, arg)
    ensures SomeFreeMatches(sws, arg) ==> SomeFreeMatches(others, arg)
  {
    hide Switch.Matches;
    forall k | 0 <= k < |sws| && sws[k].Matches(arg)
      ensures SomeMatches(others, arg) && (sws[k].Settable() ==> SomeFreeMatches(others, arg))
    {
      assert Among(sws[k], others);
      var j :| 0 <= j < |others| && others[j] == sws[k];
      assert others[j].Matches(arg);
    }
  }

  /** Every switch becomes `now` what the argument makes of it. */
  predicate AllTouched(sws: seq<Switch>, now: seq<Switch>, arg: string, delimiter: char) {
    |now| == |sws| && forall i :: 0 <= i < |sws| ==> now[i] == Touched(arg, delimiter, sws[i])
  }

  lemma TouchedStaysDistinct(sws: seq<Switch>, now: seq<Switch>, arg: string, delimiter: char)
    requires Distinct(sws) && AllTouched(sws, now, arg, delimiter)
    ensures Distinct(now)
  {
    hide Touches;
    assert forall i :: 0 <= i < |sws| ==> now[i].flag == sws[i].flag && now[i].name == sws[i].name;
  }

  lemma TouchedStaysSame(sws: seq<Switch>, others: seq<Switch>, now: seq<Switch>, after: seq<Switch>,
      arg: string, delimiter: char)
    requires SameSwitches(sws, others)
    requires AllTouched(sws, now, arg, delimiter) && AllTouched(others, after, arg, delimiter)
    ensures SameSwitches(now, after)
  {
    hide Touched;
    forall i | 0 <= i < |now| ensures Among(now[i], after) {
      assert Among(sws[i], others);
      var j :| 0 <= j < |others| && others[j] == sws[i];
      assert after[j] == now[i];
    }
    forall i | 0 <= i < |after| ensures Among(after[i], now) {
      assert Among(others[i], sws);
      var j :| 0 <= j < |sws| && sws[j] == others[i];
      assert now[j] == after[i];
    }
  }

  /** Two runs end alike: both rejected, or every switch in the same state. */
  predicate Alike(sws: seq<Switch>, others: seq<Switch>, r: Parsed, q: Parsed) {
    && (r.Parsed? <==> q.Parsed?)
    && (r.Parsed? ==>
          && |r.switches| == |sws| && |q.switches| == |others|
          && forall i, j :: 0 <= i < |sws| && 0 <= j < |others| && sws[i] == others[j] ==>
               r.switches[i] == q.switches[j])
  }

  /** Any list of the same switches, in another order, accepts the same command lines and ends with every switch
      in the same state. */
  lemma {:induction false} OrderNeverMatters(sws: seq<Switch>, others: seq<Switch>, args: seq<string>, delimiter: char)
    requires Distinct(sws) && Distinct(others) && SameSwitches(sws, others) && delimiter != BLANK
    ensures Alike(sws, others, ParseArgs(sws, args, delimiter), ParseArgs(others, args, delimiter))
    decreases |args|
  {
    hide Pass, Accepts, Distinct, SameSwitches, Touched;
    if args != [] {
      PassTouches(sws, args[0], delimiter);
      PassTouches(others, args[0], delimiter);
      SameAccepted(sws, others, args[0], delimiter);
      var r, q := Pass(sws, args[0], delimiter), Pass(others, args[0], delimiter);
      if r.Accepted() {
        TouchedStaysDistinct(sws, r.switches, args[0], delimiter);
        TouchedStaysDistinct(others, q.switches, args[0], delimiter);
        TouchedStaysSame(sws, others, r.switches, q.switches, args[0], delimiter);
        OrderNeverMatters(r.switches, q.switches, args[1..], delimiter);
      }
    }
  }
}
