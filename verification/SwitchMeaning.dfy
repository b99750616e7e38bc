/** What an accepted command line does to each switch, told by its arguments alone. */
module SwitchMeaning {
  import opened Switches
  import opened SwitchOrder

  /** An argument names a switch as its flag, as its name, or by the flag in a combination. */
  predicate NamedBy(arg: string, delimiter: char, flag: string, name: string) {
    || (flag != "" && arg == [FLAG_START] + flag)
    || arg == [FLAG_START, FLAG_START] + name
    || (flag != "" && Combined(arg, delimiter) && exists j :: 1 <= j < |arg| && arg[j] == flag[0])
  }

  predicate NamedIn(args: seq<string>, delimiter: char, flag: string, name: string) {
    exists i :: 0 <= i < |args| && NamedBy(args[i], delimiter, flag, name)
  }

  lemma TouchesWhenNamed(arg: string, delimiter: char, sw: Switch)
    requires sw.Valid()
    ensures Touches(arg, delimiter, sw) <==> NamedBy(arg, delimiter, sw.flag, sw.name)
  {
    NamesIffOccurs(arg, sw);
    if sw.flag != "" && arg == [FLAG_START] + sw.flag { assert arg[1] == sw.flag[0]; }
    if arg == [FLAG_START, FLAG_START] + sw.name { assert arg[0] == FLAG_START && arg[1] == FLAG_START; }
  }

  lemma NamedFirst(args: seq<string>, delimiter: char, flag: string, name: string)
    requires args != []
    ensures NamedIn(args, delimiter, flag, name) <==>
      NamedBy(args[0], delimiter, flag, name) || NamedIn(args[1..], delimiter, flag, name)
  {
    hide NamedBy;
    assert forall i :: 0 < i < |args| ==> args[1..][i - 1] == args[i];
    assert forall i :: 0 <= i < |args[1..]| ==> args[i + 1] == args[1..][i];
  }

  /** A switch that cannot be set is not named by an accepted argument. */
  lemma SetOnlyOnce(sws: seq<Switch>, arg: string, delimiter: char, k: nat)
    requires Distinct(sws) && k < |sws| && !sws[k].Settable() && Accepts(sws, arg, delimiter) && delimiter != BLANK
    ensures !Touches(arg, delimiter, sws[k])
  {
    if Combined(arg, delimiter) {
      NotNamedByCombination(sws, arg, k);
    } else if sws[k].Matches(arg) {
      assert SomeMatches(sws, arg);
      var i :| 0 <= i < |sws| && sws[i].Matches(arg) && sws[i].Settable();
      if i < k { MatchesOne(sws, arg, i, k); } else { MatchesOne(sws, arg, k, i); }
    }
  }

  lemma NotNamedByCombination(sws: seq<Switch>, arg: string, k: nat)
    requires ValidList(sws) && k < |sws| && !sws[k].Settable() && Acceptable(sws, arg)
    ensures !Names(arg, sws[k])
  {
    NamesIffOccurs(arg, sws[k]);
    if sws[k].flag != "" {
      assert sws[k].flag == [sws[k].flag[0]];
      forall j | 1 <= j < |arg| ensures arg[j] != sws[k].flag[0] {
        if arg[j] != BLANK {
          assert Known(sws, arg[j]);
          var i :| 0 <= i < |sws| && sws[i].flag == [arg[j]] && sws[i].Settable();
          assert i != k && sws[i].flag != sws[k].flag;
        }
      }
    }
  }

  /** An argument that does not begin with a dash, begins with two, or contains the delimiter concerns a switch
      only as its whole flag or name. */
  lemma OnlyWholeWords(sw: Switch, arg: string, delimiter: char)
    requires arg != ""
    requires arg[0] != FLAG_START || (|arg| >= 2 && arg[1] == FLAG_START)
          || exists i :: 0 <= i < |arg| && arg[i] == delimiter
    requires arg != [FLAG_START] + sw.flag || sw.flag == ""
    requires arg != [FLAG_START, FLAG_START] + sw.name
    ensures Process(sw, arg, delimiter) == Done(sw, false, arg)
  {
    if i :| 0 <= i < |arg| && arg[i] == delimiter { assert !NoDelimiter(arg, delimiter); }
  }

  /** What the arguments make of a switch: its value changes exactly if it is named, once. */
  predicate SetAsNamed(before: Switch, after: Switch, named: bool) {
    && after.value == (before.value != named)
    && after.alreadySet == (before.alreadySet || named)
    && (named ==> !before.alreadySet && !before.xorSet)
    && after.flag == before.flag && after.name == before.name && after.xorSet == before.xorSet
  }

  lemma TouchedAsNamed(arg: string, delimiter: char, sw: Switch)
    requires Touches(arg, delimiter, sw) ==> sw.Settable()
    ensures SetAsNamed(sw, Touched(arg, delimiter, sw), Touches(arg, delimiter, sw))
  {
  }

  lemma SetTwice(a: Switch, b: Switch, c: Switch, first: bool, later: bool)
    requires SetAsNamed(a, b, first) && SetAsNamed(b, c, later)
    ensures SetAsNamed(a, c, first || later) && !(first && later)
  {
  }

  /** On an accepted command line every switch ends with its value changed exactly if some argument names it, and
      marked as set exactly if it was before or some argument names it; the rest of it is unchanged. */
  lemma {:induction false} ParseMeaning(sws: seq<Switch>, args: seq<string>, delimiter: char)
    requires Distinct(sws) && delimiter != BLANK
    ensures var r := ParseArgs(sws, args, delimiter);
      r.Parsed? ==> |r.switches| == |sws| && forall i :: 0 <= i < |sws| ==>
        SetAsNamed(sws[i], r.switches[i], NamedIn(args, delimiter, sws[i].flag, sws[i].name))
    decreases |args|
  {
    hide Pass, Accepts, Distinct, Touched, Touches, NamedBy, SetAsNamed, NamedIn;
    var r := ParseArgs(sws, args, delimiter);
    if args == [] {
      forall i | 0 <= i < |sws| ensures SetAsNamed(sws[i], sws[i], NamedIn(args, delimiter, sws[i].flag, sws[i].name)) {
        NotNamed(sws[i], delimiter);
      }
    } else if r.Parsed? {
      PassTouches(sws, args[0], delimiter);
      var now := Pass(sws, args[0], delimiter).switches;
      TouchedStaysDistinct(sws, now, args[0], delimiter);
      ParseMeaning(now, args[1..], delimiter);
      forall i | 0 <= i < |sws|
        ensures SetAsNamed(sws[i], r.switches[i], NamedIn(args, delimiter, sws[i].flag, sws[i].name))
      {
        OneSwitch(sws, args, delimiter, i, r.switches[i]);
      }
    }
  }

  lemma NotNamed(sw: Switch, delimiter: char)
    ensures SetAsNamed(sw, sw, NamedIn([], delimiter, sw.flag, sw.name))
  {
  }

  lemma OneSwitch(sws: seq<Switch>, args: seq<string>, delimiter: char, i: nat, end: Switch)
    requires Distinct(sws) && i < |sws| && args != [] && Accepts(sws, args[0], delimiter) && delimiter != BLANK
    requires var now := Touched(args[0], delimiter, sws[i]);
      SetAsNamed(now, end, NamedIn(args[1..], delimiter, now.flag, now.name))
    ensures SetAsNamed(sws[i], end, NamedIn(args, delimiter, sws[i].flag, sws[i].name))
  {
    hide Accepts, Touches, NamedBy, NamedIn;
    var sw := sws[i];
    var now := Touched(args[0], delimiter, sw);
    if !sw.Settable() { SetOnlyOnce(sws, args[0], delimiter, i); }
    TouchedAsNamed(args[0], delimiter, sw);
    TouchesWhenNamed(args[0], delimiter, sw);
    NamedFirst(args, delimiter, sw.flag, sw.name);
    SetTwice(sw, now, end, NamedBy(args[0], delimiter, sw.flag, sw.name),
             NamedIn(args[1..], delimiter, sw.flag, sw.name));
  }

  /** The flag of a switch that was not set, nor anything exclusive to it, is accepted by itself. */
  lemma FreeFlagAccepted(sws: seq<Switch>, k: nat, delimiter: char)
    requires Distinct(sws) && k < |sws| && delimiter != BLANK && delimiter != FLAG_START
    requires sws[k].flag != "" && sws[k].flag[0] != delimiter && !sws[k].alreadySet && !sws[k].xorSet
    ensures ParseArgs(sws, [[FLAG_START] + sws[k].flag], delimiter).Parsed?
  {
    hide Pass, Distinct;
    var arg := [FLAG_START] + sws[k].flag;
    assert ValidList(sws) by { DistinctIsValid(sws); }
    assert sws[k].flag == [arg[1]] && |arg| == 2;
    assert sws[k].Settable() && Known(sws, arg[1]);
    assert Acceptable(sws, arg);
    PassTouches(sws, arg, delimiter);
    assert [arg][1..] == [];
  }

  lemma DistinctIsValid(sws: seq<Switch>)
    requires Distinct(sws)
    ensures ValidList(sws)
  {
  }
}
