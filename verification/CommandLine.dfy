/** The switches as the objects that parse a command line: src/tclap/SwitchArg.h and src/tclap/CmdLine.h. */
module CommandLine {
  import opened Switches
  import O = SwitchOrder
  import M = SwitchMeaning

  class SwitchArg {
    const flag: string
    const name: string
    var value: bool
    var alreadySet: bool
    var xorSet: bool

    function Get(): Switch
      reads this
    {
      Switch(flag, name, value, alreadySet, xorSet)
    }

    constructor (flag: string, name: string, value: bool)
      ensures Get() == Switch(flag, name, value, false, false)
    {
      this.flag, this.name, this.value, alreadySet, xorSet := flag, name, value, false, false;
    }

    /** Blanks the first character that is this flag. */
    method CombinedSwitchesMatch(args: array<string>, i: nat, delimiter: char) returns (found: bool)
      requires i < args.Length
      modifies args
      ensures forall j :: 0 <= j < args.Length && j != i ==> args[j] == old(args[j])
      ensures found <==> Combined(old(args[i]), delimiter) && Place(old(args[i]), flag) != -1
      ensures args[i] == if found then old(args[i])[Place(old(args[i]), flag) := BLANK] else old(args[i])
    {
      var combined := args[i];
      if |combined| > 0 && combined[0] != FLAG_START {
        return false;
      }
      if |combined| >= 2 && combined[..2] == [FLAG_START, FLAG_START] {
        return false;
      }
      if !NoDelimiter(combined, delimiter) {
        return false;
      }
      var k := 1;
      while k < |combined|
        invariant k >= 1 && args[..] == old(args[..])
        invariant Place(combined, flag) != -1 ==> Place(combined, flag) >= k
      {
        if |flag| > 0 && combined[k] == flag[0] && flag[0] != FLAG_START {
          args[i] := combined[k := BLANK];
          return true;
        }
        k := k + 1;
      }
      return false;
    }

    method LastCombined(combined: string) returns (last: bool)
      ensures last == AllBlank(combined)
    {
      var k := 1;
      while k < |combined|
        invariant k >= 1 && forall j :: 1 <= j < |combined| && j < k ==> combined[j] == BLANK
      {
        if combined[k] != BLANK {
          return false;
        }
        k := k + 1;
      }
      return true;
    }

    method CommonProcessing() returns (thrown: bool)
      modifies this`alreadySet, this`value
      ensures thrown <==> !old(Get()).Settable()
      ensures Get() == if thrown then old(Get()) else old(Get()).Toggled()
      ensures !thrown ==> value == !old(value) && alreadySet
    {
      if xorSet || alreadySet {
        return true;
      }
      alreadySet := true;
      if value {
        value := false;
      } else {
        value := true;
      }
      return false;
    }

    method ProcessArg(args: array<string>, i: nat, delimiter: char) returns (thrown: bool, matched: bool)
      requires i < args.Length
      modifies this`alreadySet, this`value, args
      ensures forall j :: 0 <= j < args.Length && j != i ==> args[j] == old(args[j])
      ensures thrown <==> Process(old(Get()), old(args[i]), delimiter) == Thrown
      ensures !thrown ==> Process(old(Get()), old(args[i]), delimiter) == Done(Get(), matched, args[i])
    {
      if (args[i] == [FLAG_START] + flag && flag != "") || args[i] == [FLAG_START, FLAG_START] + name {
        thrown := CommonProcessing();
        matched := true;
        return;
      }
      var found := CombinedSwitchesMatch(args, i, delimiter);
      if !found {
        return false, false;
      }
      found := CombinedSwitchesMatch(args, i, delimiter);
      if found {
        return true, false;
      }
      thrown := CommonProcessing();
      matched := LastCombined(args[i]);
    }
  }

  function View(sws: seq<SwitchArg>): (v: seq<Switch>)
    reads sws
    ensures |v| == |sws| && forall k :: 0 <= k < |sws| ==> v[k] == sws[k].Get()
  {
    if sws == [] then [] else [sws[0].Get()] + View(sws[1..])
  }

  lemma ViewIs(sws: seq<SwitchArg>, v: seq<Switch>)
    requires |v| == |sws| && forall k :: 0 <= k < |sws| ==> sws[k].Get() == v[k]
    ensures View(sws) == v
  {
    hide View;
  }

  ghost predicate Distinct(sws: seq<SwitchArg>) {
    forall i, j :: 0 <= i < j < |sws| ==> sws[i] != sws[j]
  }

  /** What the whole inner loop yields when the first switches did not end it. */
  ghost function After(before: seq<Switch>, r: PassOutcome): PassOutcome {
    match r
    case PassThrown => PassThrown
    case Passed(switches, matched, arg) => Passed(before + switches, matched, arg)
  }

  class CmdLine {
    var argList: seq<SwitchArg>
    const delimiter: char := ' '

    method EmptyCombined(s: string) returns (empty: bool)
      ensures empty <==> (|s| > 0 ==> s[0] == FLAG_START) && AllBlank(s)
    {
      if |s| > 0 && s[0] != FLAG_START {
        return false;
      }
      var k := 1;
      while k < |s|
        invariant k >= 1 && forall j :: 1 <= j < |s| && j < k ==> s[j] == BLANK
      {
        if s[k] != BLANK {
          return false;
        }
        k := k + 1;
      }
      return true;
    }

    /** Offers the argument to one switch; the others stay as they are. */
    method OfferTo(k: nat, args: array<string>, i: nat) returns (thrown: bool, matched: bool)
      requires k < |argList| && i < args.Length && Distinct(argList)
      modifies argList[k], args
      ensures forall j :: 0 <= j < args.Length && j != i ==> args[j] == old(args[j])
      ensures forall j :: 0 <= j < |argList| && j != k ==> argList[j].Get() == old(argList[j].Get())
      ensures thrown <==> Process(old(argList[k].Get()), old(args[i]), delimiter) == Thrown
      ensures !thrown ==>
        Process(old(argList[k].Get()), old(args[i]), delimiter) == Done(argList[k].Get(), matched, args[i])
    {
      hide Process;
      thrown, matched := argList[k].ProcessArg(args, i, delimiter);
    }

    /** Offers the argument to one switch after the other. */
    method Offer(args: array<string>, i: nat) returns (thrown: bool, matched: bool)
      requires i < args.Length && Distinct(argList)
      modifies argList, args
      ensures forall j :: 0 <= j < args.Length && j != i ==> args[j] == old(args[j])
      ensures thrown <==> Pass(old(View(argList)), old(args[i]), delimiter) == PassThrown
      ensures !thrown ==> Pass(old(View(argList)), old(args[i]), delimiter) == Passed(View(argList), matched, args[i])
    {
      hide Process, Pass, View, After, SwitchArg.Get;
      thrown, matched := false, false;
      ghost var start, whole := View(argList), Pass(View(argList), args[i], delimiter);
      ghost var done: seq<Switch> := [];
      assert start[0..] == start;
      AfterNothing(whole);
      var k := 0;
      while k < |argList|
        invariant k <= |argList|
        invariant forall j :: 0 <= j < args.Length && j != i ==> args[j] == old(args[j])
        invariant |done| == k
        invariant forall j :: 0 <= j < |argList| ==> argList[j].Get() == if j < k then done[j] else start[j]
        invariant whole == After(done, Pass(start[k..], args[i], delimiter))
      {
        PassStep(done, start, k, args[i], delimiter);
        thrown, matched := OfferTo(k, args, i);
        if thrown {
          return;
        }
        done := done + [argList[k].Get()];
        if matched {
          ViewIs(argList, done + start[k + 1..]);
          return;
        }
        k := k + 1;
      }
      ViewIs(argList, done);
      assert start[k..] == [];
      PassNobody(done, args[i], delimiter);
    }

    /** The outer parse loop over all arguments, without the program name. */
    method Parse(args: array<string>) returns (accepted: bool)
      requires Distinct(argList)
      modifies argList, args
      ensures ParseArgs(old(View(argList)), old(args[..]), delimiter)
           == if accepted then Parsed(View(argList)) else Rejected
      ensures accepted && O.Distinct(old(View(argList))) ==>
        forall k :: 0 <= k < |argList| ==>
          var named := M.NamedIn(old(args[..]), delimiter, argList[k].flag, argList[k].name);
          && argList[k].value == (old(argList[k].value) != named)
          && argList[k].alreadySet == (old(argList[k].alreadySet) || named)
          && argList[k].xorSet == old(argList[k].xorSet)
    {
      hide Pass, AllBlank, View, M.NamedIn, O.Distinct;
      ghost var start, all := View(argList), args[..];
      var i := 0;
      while i < args.Length
        invariant i <= args.Length
        invariant forall j :: i <= j < args.Length ==> args[j] == all[j]
        invariant ParseArgs(start, all, delimiter) == ParseArgs(View(argList), all[i..], delimiter)
      {
        ghost var before := View(argList);
        assert all[i..][1..] == all[i + 1..];
        var thrown, matched := Offer(args, i);
        if thrown {
          return false;
        }
        if !matched {
          matched := EmptyCombined(args[i]);
        }
        if !matched {
          return false;
        }
        i := i + 1;
      }
      assert all[i..] == [];
      if O.Distinct(start) {
        M.ParseMeaning(start, all, delimiter);
        forall k | 0 <= k < |argList|
          ensures M.SetAsNamed(start[k], argList[k].Get(),
                               M.NamedIn(all, delimiter, argList[k].flag, argList[k].name))
        {
          assert View(argList)[k] == argList[k].Get();
        }
      }
      return true;
    }
  }

  lemma AfterNothing(r: PassOutcome)
    ensures After([], r) == r
  {
  }

  lemma PassNobody(before: seq<Switch>, arg: string, delimiter: char)
    ensures After(before, Pass([], arg, delimiter)) == Passed(before, false, arg)
  {
    assert before + [] == before;
  }

  /** One more switch is offered the argument. */
  lemma PassStep(before: seq<Switch>, sws: seq<Switch>, k: nat, arg: string, delimiter: char)
    requires k < |sws|
    ensures After(before, Pass(sws[k..], arg, delimiter)) ==
      match Process(sws[k], arg, delimiter)
      case Thrown => PassThrown
      case Done(sw, true, rest) => Passed(before + [sw] + sws[k + 1..], true, rest)
      case Done(sw, false, rest) => After(before + [sw], Pass(sws[k + 1..], rest, delimiter))
  {
    assert sws[k..][0] == sws[k] && sws[k..][1..] == sws[k + 1..];
    match Process(sws[k], arg, delimiter)
    case Thrown =>
    case Done(sw, true, rest) => assert before + ([sw] + sws[k + 1..]) == before + [sw] + sws[k + 1..];
    case Done(sw, false, rest) => AfterTwice(before, sw, Pass(sws[k + 1..], rest, delimiter));
  }

  lemma AfterTwice(before: seq<Switch>, sw: Switch, r: PassOutcome)
    ensures After(before, After([sw], r)) == After(before + [sw], r)
  {
    if r.Passed? {
      assert before + ([sw] + r.switches) == (before + [sw]) + r.switches;
    }
  }
}
