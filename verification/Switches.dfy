/** Combined command line switches, from src/tclap/SwitchArg.h and the parse loop of src/tclap/CmdLine.h. */
module Switches {

  /** Stands in for a flag that was consumed. */
  const BLANK := '\U{0007}'
  const FLAG_START := '-'

  // ----- the reference: one switch against one argument

  /** The state of a switch without visitor. */
  datatype Switch = Switch(flag: string, name: string, value: bool, alreadySet: bool, xorSet: bool)
  {
    /** What the constructor demands of a flag, and that it is not the blank. */
    predicate Valid() {
      |flag| <= 1 && (flag != "" ==> flag[0] != FLAG_START && flag[0] != ' ' && flag[0] != BLANK)
    }

    function Toggled(): Switch {
      this.(value := !value, alreadySet := true)
    }

    predicate Matches(arg: string) {
      (flag != "" && arg == [FLAG_START] + flag) || arg == [FLAG_START, FLAG_START] + name
    }

    predicate Settable() {
      !alreadySet && !xorSet
    }
  }

  /** The first place of `c` behind the start of the argument; -1 if there is none. */
  function PlaceFrom(arg: string, c: char, i: nat): (p: int)
    ensures p == -1 || (i <= p < |arg| && arg[p] == c)
    ensures forall j :: i <= j < |arg| && (p == -1 || j < p) ==> arg[j] != c
    decreases if i <= |arg| then |arg| - i else 0
  {
    if i >= |arg| then -1 else if arg[i] == c then i else PlaceFrom(arg, c, i + 1)
  }

  function Place(arg: string, flag: string): (p: int)
    ensures p == -1 || (1 <= p < |arg| && flag != "" && arg[p] == flag[0] && flag[0] != FLAG_START)
    ensures p == -1 && flag != "" && flag[0] != FLAG_START ==> forall j :: 1 <= j < |arg| ==> arg[j] != flag[0]
  {
    if flag == "" || flag[0] == FLAG_START then -1 else PlaceFrom(arg, flag[0], 1)
  }

  predicate NoDelimiter(arg: string, delimiter: char) {
    forall i :: 0 <= i < |arg| ==> arg[i] != delimiter
  }

  /** The shape of a combined argument: one dash, no second one behind it, no delimiter. */
  predicate Combined(arg: string, delimiter: char) {
    && (|arg| > 0 ==> arg[0] == FLAG_START)
    && !(|arg| >= 2 && arg[0] == FLAG_START && arg[1] == FLAG_START)
    && NoDelimiter(arg, delimiter)
  }

  predicate AllBlank(arg: string) {
    forall i :: 1 <= i < |arg| ==> arg[i] == BLANK
  }

  datatype Outcome = Thrown | Done(switch: Switch, matched: bool, arg: string)

  /** `processArg` of a switch. */
  function Process(sw: Switch, arg: string, delimiter: char): Outcome {
    if sw.Matches(arg) then
      if sw.Settable() then Done(sw.Toggled(), true, arg) else Thrown
    else if !Combined(arg, delimiter) || Place(arg, sw.flag) == -1 then Done(sw, false, arg)
    else
      var rest := arg[Place(arg, sw.flag) := BLANK];
      if (Combined(rest, delimiter) && Place(rest, sw.flag) != -1) || !sw.Settable() then Thrown
      else Done(sw.Toggled(), AllBlank(rest), rest)
  }

  datatype PassOutcome = PassThrown | Passed(switches: seq<Switch>, matched: bool, arg: string)
  {
    /** The parse loop goes on: some switch took the argument, or nothing of it is left. */
    predicate Accepted() {
      Passed? && (matched || ((|arg| > 0 ==> arg[0] == FLAG_START) && AllBlank(arg)))
    }
  }

  /** The inner parse loop: the switches are offered the argument one after the other. */
  function Pass(sws: seq<Switch>, arg: string, delimiter: char): (r: PassOutcome)
    ensures r.Passed? ==> |r.switches| == |sws|
  {
    if sws == [] then Passed([], false, arg)
    else match Process(sws[0], arg, delimiter)
      case Thrown => PassThrown
      case Done(sw, true, rest) => Passed([sw] + sws[1..], true, rest)
      case Done(sw, false, rest) =>
        match Pass(sws[1..], rest, delimiter)
        case PassThrown => PassThrown
        case Passed(others, matched, left) => Passed([sw] + others, matched, left)
  }

  // ----- what a combined argument means

  predicate ValidList(sws: seq<Switch>) {
    && (forall i :: 0 <= i < |sws| ==> sws[i].Valid())
    && forall i, j :: 0 <= i < j < |sws| && sws[i].flag != "" ==> sws[i].flag != sws[j].flag
  }

  /** Some switch that may still be set has the flag `c`. */
  predicate Known(sws: seq<Switch>, c: char) {
    exists k :: 0 <= k < |sws| && sws[k].flag == [c] && sws[k].Settable()
  }

  /** Every character names a different switch that may still be set. */
  predicate Acceptable(sws: seq<Switch>, arg: string) {
    && (forall i, j :: 1 <= i < j < |arg| && arg[i] == arg[j] ==> arg[i] == BLANK)
    && (forall i :: 1 <= i < |arg| && arg[i] != BLANK ==> Known(sws, arg[i]))
  }

  predicate Names(arg: string, sw: Switch) {
    Place(arg, sw.flag) != -1
  }

  /** The switches after those that the argument names were set. */
  function Applied(sws: seq<Switch>, arg: string): (r: seq<Switch>)
    ensures |r| == |sws|
    ensures forall i :: 0 <= i < |sws| ==> r[i] == if Names(arg, sws[i]) then sws[i].Toggled() else sws[i]
  {
    if sws == [] then [] else [if Names(arg, sws[0]) then sws[0].Toggled() else sws[0]] + Applied(sws[1..], arg)
  }

  lemma ValidTail(sws: seq<Switch>)
    requires ValidList(sws) && sws != []
    ensures ValidList(sws[1..])
    ensures forall k :: 0 < k < |sws| && sws[0].flag != "" ==> sws[k].flag != sws[0].flag
  {
    forall i, j | 0 <= i < j < |sws[1..]| && sws[1..][i].flag != "" ensures sws[1..][i].flag != sws[1..][j].flag {
      assert sws[1..][i] == sws[i + 1] && sws[1..][j] == sws[j + 1];
    }
  }

  /** A known flag is known to the first switch or to the others. */
  lemma KnownSplit(sws: seq<Switch>, c: char)
    requires sws != []
    ensures Known(sws, c) <==> (sws[0].flag == [c] && sws[0].Settable()) || Known(sws[1..], c)
  {
    if Known(sws, c) && !(sws[0].flag == [c] && sws[0].Settable()) {
      var k :| 0 <= k < |sws| && sws[k].flag == [c] && sws[k].Settable();
      assert sws[1..][k - 1] == sws[k];
    }
    if Known(sws[1..], c) {
      var k :| 0 <= k < |sws[1..]| && sws[1..][k].flag == [c] && sws[1..][k].Settable();
      assert sws[k + 1] == sws[1..][k];
    }
  }

  /** A switch that the argument does not name does not matter. */
  lemma UnnamedIrrelevant(sws: seq<Switch>, arg: string)
    requires sws != [] && sws[0].Valid() && !Names(arg, sws[0])
    ensures Acceptable(sws, arg) <==> Acceptable(sws[1..], arg)
  {
    forall i | 1 <= i < |arg| ensures Known(sws, arg[i]) <==> Known(sws[1..], arg[i]) {
      KnownSplit(sws, arg[i]);
    }
  }

  /** Consuming a named flag leaves a meaning for the others. */
  lemma ConsumedFlag(sws: seq<Switch>, arg: string)
    requires ValidList(sws) && sws != [] && Names(arg, sws[0])
    ensures var rest := arg[Place(arg, sws[0].flag) := BLANK];
      && (Names(rest, sws[0]) || !sws[0].Settable() ==> !Acceptable(sws, arg))
      && (!Names(rest, sws[0]) && sws[0].Settable() ==>
            (Acceptable(sws, arg) <==> Acceptable(sws[1..], rest)) && Applied(sws[1..], arg) == Applied(sws[1..], rest))
  {
    var p, c := Place(arg, sws[0].flag), sws[0].flag[0];
    var rest := arg[p := BLANK];
    assert sws[0].flag == [c];
    ValidTail(sws);
    if Names(rest, sws[0]) {
      var q := Place(rest, sws[0].flag);
      assert q != p && arg[q] == c == arg[p];
    } else if !sws[0].Settable() {
      assert !Known(sws, c);
    } else {
      OthersUntouched(sws, arg, p);
      forall i | 1 <= i < |arg| && i != p ensures arg[i] != c {
        assert rest[i] == arg[i];
      }
      OthersAcceptable(sws, arg, p);
    }
  }

  /** With the only place of a settable flag blanked, the rest is left to the other switches. */
  lemma OthersAcceptable(sws: seq<Switch>, arg: string, p: int)
    requires ValidList(sws) && sws != [] && sws[0].Settable() && 1 <= p < |arg| && sws[0].flag == [arg[p]]
    requires forall i :: 1 <= i < |arg| && i != p ==> arg[i] != arg[p]
    ensures Acceptable(sws, arg) <==> Acceptable(sws[1..], arg[p := BLANK])
  {
    hide Known;
    var rest := arg[p := BLANK];
    assert forall i :: 1 <= i < |arg| && i != p ==> rest[i] == arg[i];
    forall i | 1 <= i < |arg| && i != p ensures Known(sws, arg[i]) <==> Known(sws[1..], rest[i]) {
      KnownSplit(sws, arg[i]);
      assert [arg[p]][0] == arg[p] != arg[i] == [arg[i]][0];
    }
    KnownSplit(sws, arg[p]);
    if Acceptable(sws[1..], rest) {
      forall i, j | 1 <= i < j < |arg| && arg[i] == arg[j] ensures arg[i] == BLANK {
        assert i != p && j != p;
        assert rest[i] == arg[i] && rest[j] == arg[j];
      }
    }
  }

  lemma OthersUntouched(sws: seq<Switch>, arg: string, p: int)
    requires ValidList(sws) && sws != [] && sws[0].flag != "" && 1 <= p < |arg| && arg[p] == sws[0].flag[0]
    ensures Applied(sws[1..], arg) == Applied(sws[1..], arg[p := BLANK])
  {
    ValidTail(sws);
    var others, rest := sws[1..], arg[p := BLANK];
    forall i | 0 <= i < |others| ensures Names(arg, others[i]) <==> Names(rest, others[i]) {
      assert others[i] == sws[i + 1];
      NamesIffOccurs(arg, others[i]);
      NamesIffOccurs(rest, others[i]);
      if others[i].flag != "" {
        var d := others[i].flag[0];
        assert others[i].flag == [d] && sws[0].flag == [arg[p]];
        if j :| 1 <= j < |arg| && arg[j] == d { assert rest[j] == d; }
        if j :| 1 <= j < |rest| && rest[j] == d { assert arg[j] == d; }
      }
    }
  }

  lemma NamesIffOccurs(arg: string, sw: Switch)
    requires sw.Valid()
    ensures Names(arg, sw) <==> sw.flag != "" && exists j :: 1 <= j < |arg| && arg[j] == sw.flag[0]
  {
  }

  lemma NothingNamed(sws: seq<Switch>, arg: string)
    requires ValidList(sws) && AllBlank(arg)
    ensures Acceptable(sws, arg) && Applied(sws, arg) == sws
  {
    forall i | 0 <= i < |sws| ensures !Names(arg, sws[i]) {
      NamesIffOccurs(arg, sws[i]);
    }
  }

  /** The parse loop accepts a combined argument exactly if each of its characters names a different switch
      that may still be set, whatever the order of the switches; it then sets exactly those, and every
      character is consumed. */
  lemma {:induction false} PassMeaning(sws: seq<Switch>, arg: string, delimiter: char)
    requires ValidList(sws) && Combined(arg, delimiter) && delimiter != BLANK
    ensures var r := Pass(sws, arg, delimiter);
      && (r.Accepted() <==> Acceptable(sws, arg))
      && (r.Accepted() ==> r.switches == Applied(sws, arg) && (AllBlank(r.arg) || |arg| == 2))
    decreases |sws|
  {
    if sws == [] {
      if AllBlank(arg) {} else {
        var i :| 1 <= i < |arg| && arg[i] != BLANK;
        assert !Known(sws, arg[i]);
      }
    } else {
      var sw := sws[0];
      ValidTail(sws);
      if sw.Matches(arg) {
        SingleFlag(sws, arg);
      } else if !Names(arg, sw) {
        UnnamedIrrelevant(sws, arg);
        PassMeaning(sws[1..], arg, delimiter);
      } else {
        var rest := arg[Place(arg, sw.flag) := BLANK];
        ConsumedFlag(sws, arg);
        assert Combined(rest, delimiter);
        if !Names(rest, sw) && sw.Settable() {
          if AllBlank(rest) {
            NothingNamed(sws[1..], rest);
          } else {
            PassMeaning(sws[1..], rest, delimiter);
            assert |rest| == 2 ==> AllBlank(rest);
          }
        }
      }
    }
  }

  lemma SingleFlag(sws: seq<Switch>, arg: string)
    requires ValidList(sws) && sws != [] && sws[0].Matches(arg)
    requires !(|arg| >= 2 && arg[1] == FLAG_START)
    ensures |arg| == 2 && Names(arg, sws[0])
    ensures Acceptable(sws, arg) <==> sws[0].Settable()
    ensures Applied(sws, arg) == [sws[0].Toggled()] + sws[1..]
  {
    ValidTail(sws);
    var c := sws[0].flag[0];
    assert sws[0].flag == [c] && arg == [FLAG_START, c];
    assert arg[1] == c;
    NamesIffOccurs(arg, sws[0]);
    forall i | 0 < i < |sws| ensures !Names(arg, sws[i]) {
      NamesIffOccurs(arg, sws[i]);
    }
    forall k | 0 <= k < |sws| && sws[k].flag == [c] ensures k == 0 {}
    assert Applied(sws, arg) == [sws[0].Toggled()] + sws[1..];
  }

  datatype Parsed = Rejected | Parsed(switches: seq<Switch>)

  /** The outer parse loop: every argument must be accepted. */
  function ParseArgs(sws: seq<Switch>, args: seq<string>, delimiter: char): (r: Parsed)
    decreases |args|
  {
    if args == [] then Parsed(sws)
    else
      var first := Pass(sws, args[0], delimiter);
      if first.Accepted() then ParseArgs(first.switches, args[1..], delimiter) else Rejected
  }

  /** The flags one by one, each an argument of its own. */
  function Separate(flags: string): (args: seq<string>)
    ensures |args| == |flags| && forall i :: 0 <= i < |args| ==> args[i] == [FLAG_START, flags[i]]
  {
    if flags == "" then [] else [[FLAG_START, flags[0]]] + Separate(flags[1..])
  }

  predicate PlainFlags(flags: string, delimiter: char) {
    && delimiter != BLANK && delimiter != FLAG_START
    && forall i :: 0 <= i < |flags| ==> flags[i] != BLANK && flags[i] != FLAG_START && flags[i] != delimiter
  }

  lemma PlainIsCombined(flags: string, delimiter: char)
    requires PlainFlags(flags, delimiter)
    ensures Combined([FLAG_START] + flags, delimiter)
    ensures flags != "" ==> Combined([FLAG_START, flags[0]], delimiter) && PlainFlags(flags[1..], delimiter)
  {
    var arg := [FLAG_START] + flags;
    assert |arg| >= 2 ==> arg[1] == flags[0];
  }

  lemma ParseOneArg(sws: seq<Switch>, arg: string, delimiter: char)
    requires ValidList(sws) && Combined(arg, delimiter) && delimiter != BLANK
    ensures ParseArgs(sws, [arg], delimiter) == if Acceptable(sws, arg) then Parsed(Applied(sws, arg)) else Rejected
  {
    PassMeaning(sws, arg, delimiter);
    assert [arg][1..] == [];
  }

  /** Separate flags are accepted exactly if the combined argument is, and leave the same switches. */
  lemma {:induction false} SeparateMeansCombined(sws: seq<Switch>, flags: string, delimiter: char)
    requires ValidList(sws) && PlainFlags(flags, delimiter)
    ensures ParseArgs(sws, Separate(flags), delimiter) == ParseArgs(sws, [[FLAG_START] + flags], delimiter)
    decreases |flags|
  {
    hide Combined, Known, Applied, Place, AllBlank;
    var arg := [FLAG_START] + flags;
    PlainIsCombined(flags, delimiter);
    ParseOneArg(sws, arg, delimiter);
    if flags == "" {
      NoFlags(sws);
    } else {
      var one, others := [FLAG_START, flags[0]], [FLAG_START] + flags[1..];
      assert Separate(flags) == [one] + Separate(flags[1..]);
      PassMeaning(sws, one, delimiter);
      assert arg[1] == flags[0] == one[1];
      if Acceptable(sws, one) {
        var next := Applied(sws, one);
        AppliedValid(sws, one);
        SeparateMeansCombined(next, flags[1..], delimiter);
        PlainIsCombined(flags[1..], delimiter);
        ParseOneArg(next, others, delimiter);
        FirstThenOthers(sws, flags);
      } else {
        assert !Known(sws, flags[0]);
      }
    }
  }

  lemma NoFlags(sws: seq<Switch>)
    requires ValidList(sws)
    ensures Acceptable(sws, [FLAG_START] + "") && Applied(sws, [FLAG_START] + "") == sws
  {
    NothingNamed(sws, [FLAG_START] + "");
  }

  /** Parsing goes on with what was parsed before. */
  lemma {:induction false} ParseConcat(sws: seq<Switch>, args: seq<string>, more: seq<string>, delimiter: char)
    ensures ParseArgs(sws, args + more, delimiter) ==
      match ParseArgs(sws, args, delimiter)
      case Rejected => Rejected
      case Parsed(next) => ParseArgs(next, more, delimiter)
    decreases |args|
  {
    hide Pass;
    if args == [] {
      assert args + more == more;
    } else {
      assert (args + more)[1..] == args[1..] + more;
      var first := Pass(sws, args[0], delimiter);
      if first.Accepted() {
        ParseConcat(first.switches, args[1..], more, delimiter);
      }
    }
  }

  /** Anywhere in a command line the combined argument can be replaced by the separate flags. */
  lemma CombinedAnywhere(sws: seq<Switch>, before: seq<string>, flags: string, after: seq<string>, delimiter: char)
    requires ValidList(sws) && PlainFlags(flags, delimiter)
    ensures ParseArgs(sws, before + [[FLAG_START] + flags] + after, delimiter)
         == ParseArgs(sws, before + Separate(flags) + after, delimiter)
  {
    var combined, separate := [[FLAG_START] + flags], Separate(flags);
    ParseConcat(sws, before + combined, after, delimiter);
    ParseConcat(sws, before + separate, after, delimiter);
    ParseConcat(sws, before, combined, delimiter);
    ParseConcat(sws, before, separate, delimiter);
    ParseKeepsValid(sws, before, delimiter);
    var r := ParseArgs(sws, before, delimiter);
    if r.Parsed? {
      SeparateMeansCombined(r.switches, flags, delimiter);
    }
  }

  predicate SameFlags(sws: seq<Switch>, others: seq<Switch>) {
    |sws| == |others| && forall i :: 0 <= i < |sws| ==> sws[i].flag == others[i].flag
  }

  lemma {:induction false} PassKeepsFlags(sws: seq<Switch>, arg: string, delimiter: char)
    ensures var r := Pass(sws, arg, delimiter); r.Passed? ==> SameFlags(sws, r.switches)
    decreases |sws|
  {
    if sws != [] {
      match Process(sws[0], arg, delimiter)
      case Thrown =>
      case Done(sw, true, rest) =>
        assert forall i :: 0 < i < |sws| ==> ([sw] + sws[1..])[i] == sws[i];
      case Done(sw, false, rest) => PassKeepsFlags(sws[1..], rest, delimiter);
    }
  }

  lemma {:induction false} ParseKeepsValid(sws: seq<Switch>, args: seq<string>, delimiter: char)
    requires ValidList(sws)
    ensures var r := ParseArgs(sws, args, delimiter); r.Parsed? ==> ValidList(r.switches)
    decreases |args|
  {
    if args != [] {
      var first := Pass(sws, args[0], delimiter);
      PassKeepsFlags(sws, args[0], delimiter);
      if first.Accepted() {
        ParseKeepsValid(first.switches, args[1..], delimiter);
      }
    }
  }

  lemma AppliedValid(sws: seq<Switch>, arg: string)
    requires ValidList(sws)
    ensures ValidList(Applied(sws, arg))
  {
    var r := Applied(sws, arg);
    assert forall i :: 0 <= i < |sws| ==> r[i].flag == sws[i].flag;
  }

  /** Setting the first flag and then the others is setting all. */
  lemma FirstThenOthers(sws: seq<Switch>, flags: string)
    requires ValidList(sws) && flags != "" && Known(sws, flags[0])
    requires forall i :: 0 <= i < |flags| ==> flags[i] != BLANK && flags[i] != FLAG_START
    ensures var one, others, arg := [FLAG_START, flags[0]], [FLAG_START] + flags[1..], [FLAG_START] + flags;
      var next := Applied(sws, one);
      && (Acceptable(next, others) <==> Acceptable(sws, arg))
      && (Acceptable(sws, arg) ==> Applied(next, others) == Applied(sws, arg))
  {
    hide Place, Known, Applied;
    var one, others, arg := [FLAG_START, flags[0]], [FLAG_START] + flags[1..], [FLAG_START] + flags;
    var next := Applied(sws, one);
    forall i | 0 <= i < |sws| ensures Names(one, sws[i]) <==> sws[i].flag == [flags[0]] {
      NamedAlone(sws[i], flags[0]);
    }
    forall c ensures Known(next, c) <==> Known(sws, c) && c != flags[0] {
      KnownAfter(sws, one, flags[0], c);
    }
    FirstThenOthersAccepted(sws, next, flags);
    if Acceptable(sws, arg) {
      assert forall j :: 0 < j < |flags| ==> flags[j] != flags[0] by {
        forall j | 0 < j < |flags| ensures flags[j] != flags[0] {
          assert arg[1] == flags[0] && arg[j + 1] == flags[j];
        }
      }
      AppliedTwice(sws, flags);
    }
  }

  lemma NamedAlone(sw: Switch, c: char)
    requires sw.Valid() && c != FLAG_START
    ensures Names([FLAG_START, c], sw) <==> sw.flag == [c]
  {
    NamesIffOccurs([FLAG_START, c], sw);
    assert [FLAG_START, c][1] == c;
    assert sw.flag != "" ==> sw.flag == [sw.flag[0]];
  }

  lemma FirstThenOthersAccepted(sws: seq<Switch>, next: seq<Switch>, flags: string)
    requires flags != "" && Known(sws, flags[0])
    requires forall i :: 0 <= i < |flags| ==> flags[i] != BLANK && flags[i] != FLAG_START
    requires forall c :: Known(next, c) <==> Known(sws, c) && c != flags[0]
    ensures Acceptable(next, [FLAG_START] + flags[1..]) <==> Acceptable(sws, [FLAG_START] + flags)
  {
    hide Known;
    var others, arg := [FLAG_START] + flags[1..], [FLAG_START] + flags;
    assert forall i :: 1 <= i < |others| ==> others[i] == arg[i + 1];
    assert forall i :: 1 < i < |arg| ==> arg[i] == others[i - 1];
    if Acceptable(next, others) {
      forall i, j | 1 <= i < j < |arg| ensures arg[i] != arg[j] {
        if i == 1 { assert Known(next, others[j - 1]); } else { assert others[i - 1] != others[j - 1]; }
      }
      forall i | 1 <= i < |arg| ensures Known(sws, arg[i]) {
        if i > 1 { assert Known(next, others[i - 1]); }
      }
    }
    if Acceptable(sws, arg) {
      forall i | 1 <= i < |others| ensures Known(next, others[i]) {
        assert arg[1] != arg[i + 1];
        assert Known(sws, arg[i + 1]);
      }
      forall i, j | 1 <= i < j < |others| ensures others[i] != others[j] {
        assert arg[i + 1] != arg[j + 1];
      }
    }
  }

  lemma AppliedTwice(sws: seq<Switch>, flags: string)
    requires ValidList(sws) && flags != "" && flags[0] != FLAG_START
    requires forall j :: 0 < j < |flags| ==> flags[j] != flags[0]
    ensures Applied(Applied(sws, [FLAG_START, flags[0]]), [FLAG_START] + flags[1..])
         == Applied(sws, [FLAG_START] + flags)
  {
    hide Place;
    var one, others, arg := [FLAG_START, flags[0]], [FLAG_START] + flags[1..], [FLAG_START] + flags;
    var next := Applied(sws, one);
    var twice, once := Applied(next, others), Applied(sws, arg);
    forall i | 0 <= i < |sws| ensures twice[i] == once[i] {
      NamedOnce(sws[i], flags);
      assert Names(others, next[i]) == Names(others, sws[i]);
    }
  }

  lemma NamedOnce(sw: Switch, flags: string)
    requires sw.Valid() && flags != "" && flags[0] != FLAG_START
    requires forall j :: 0 < j < |flags| ==> flags[j] != flags[0]
    ensures !(Names([FLAG_START, flags[0]], sw) && Names([FLAG_START] + flags[1..], sw))
    ensures Names([FLAG_START] + flags, sw) <==>
            Names([FLAG_START, flags[0]], sw) || Names([FLAG_START] + flags[1..], sw)
  {
    var one, others, arg := [FLAG_START, flags[0]], [FLAG_START] + flags[1..], [FLAG_START] + flags;
    NamesIffOccurs(one, sw);
    NamesIffOccurs(others, sw);
    NamesIffOccurs(arg, sw);
    assert forall i :: 1 <= i < |others| ==> others[i] == arg[i + 1] == flags[i];
    assert forall i :: 1 < i < |arg| ==> arg[i] == others[i - 1];
    assert arg[1] == one[1];
  }

  lemma KnownAfter(sws: seq<Switch>, one: string, d: char, c: char)
    requires ValidList(sws) && Known(sws, d)
    requires forall i :: 0 <= i < |sws| ==> (Names(one, sws[i]) <==> sws[i].flag == [d])
    ensures Known(Applied(sws, one), c) <==> Known(sws, c) && c != d
  {
    var next := Applied(sws, one);
    if Known(next, c) {
      var k :| 0 <= k < |next| && next[k].flag == [c] && next[k].Settable();
      assert sws[k].flag == [c] && sws[k].Settable();
    }
    if Known(sws, c) && c != d {
      var k :| 0 <= k < |sws| && sws[k].flag == [c] && sws[k].Settable();
      assert [c][0] == c && [d][0] == d;
      assert next[k] == sws[k];
    }
  }

  predicate Among(sw: Switch, sws: seq<Switch>) {
    exists i :: 0 <= i < |sws| && sws[i] == sw
  }

  predicate SameSwitches(sws: seq<Switch>, others: seq<Switch>) {
    && (forall i :: 0 <= i < |sws| ==> Among(sws[i], others))
    && (forall i :: 0 <= i < |others| ==> Among(others[i], sws))
  }

  /** Any list of the same switches, in another order, accepts the same combined arguments. */
  lemma OrderIrrelevant(sws: seq<Switch>, others: seq<Switch>, arg: string, delimiter: char)
    requires ValidList(sws) && ValidList(others) && Combined(arg, delimiter) && delimiter != BLANK
    requires SameSwitches(sws, others)
    ensures var r, q := Pass(sws, arg, delimiter), Pass(others, arg, delimiter);
      && (r.Accepted() <==> q.Accepted())
      && (r.Accepted() ==>
            forall i, j :: 0 <= i < |sws| && 0 <= j < |others| && sws[i] == others[j] ==>
              r.switches[i] == q.switches[j])
  {
    hide Pass, Acceptable, AllBlank, Combined, ValidList, Place, SameSwitches;
    PassMeaning(sws, arg, delimiter);
    PassMeaning(others, arg, delimiter);
    SameAcceptable(sws, others, arg);
  }

  lemma SameAcceptable(sws: seq<Switch>, others: seq<Switch>, arg: string)
    requires SameSwitches(sws, others)
    ensures Acceptable(sws, arg) <==> Acceptable(others, arg)
  {
    hide Known, SameSwitches;
    forall c ensures Known(sws, c) <==> Known(others, c) {
      KnownMember(sws, others, c);
    }
  }

  lemma KnownMember(sws: seq<Switch>, others: seq<Switch>, c: char)
    requires SameSwitches(sws, others)
    ensures Known(sws, c) <==> Known(others, c)
  {
    if Known(sws, c) {
      var k :| 0 <= k < |sws| && sws[k].flag == [c] && sws[k].Settable();
      assert Among(sws[k], others);
      var j :| 0 <= j < |others| && others[j] == sws[k];
      assert others[j].Settable();
    }
    if Known(others, c) {
      var k :| 0 <= k < |others| && others[k].flag == [c] && others[k].Settable();
      assert Among(others[k], sws);
      var j :| 0 <= j < |sws| && sws[j] == others[k];
      assert sws[j].Settable();
    }
  }
}
