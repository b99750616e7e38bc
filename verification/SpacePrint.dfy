/** Word wrapping of usage messages, from src/tclap/StdOutput.h. */
module SpacePrint {
  import opened SeqFacts

  /** One line of output; a negative indent prints as none. */
  datatype Line = Line(indent: int, text: string)
  {
    function Width(): int {
      |text| + if indent > 0 then indent else 0
    }
  }

  predicate BreakAt(s: string, p: int) {
    0 <= p < |s| && (s[p] == ' ' || s[p] == ',' || s[p] == '|')
  }

  predicate NoBreak(s: string, from: int, to: int) {
    forall p :: from <= p <= to ==> !BreakAt(s, p)
  }

  predicate NewlineAt(s: string, p: int) {
    0 <= p < |s| && s[p] == '\n'
  }

  predicate NoNewline(s: string, from: int, to: int) {
    forall p :: from <= p <= to ==> !NewlineAt(s, p)
  }

  // ----- how long a line is

  function LastBreak(s: string, start: nat, n: int): (k: int)
    ensures -1 <= k && (k == -1 || (k <= n && BreakAt(s, start + k)))
    ensures NoBreak(s, start + k + 1, start + n)
    decreases n + 1
  {
    if n < 0 then -1 else if BreakAt(s, start + n) then n else LastBreak(s, start, n - 1)
  }

  /** The length before newlines are looked at. */
  function WordLength(s: string, start: nat, width: nat): (n: nat)
    requires start < |s| && width > 0
    ensures 0 < n <= width && start + n <= |s|
  {
    if |s| - start < width then |s| - start
    else if LastBreak(s, start, width) <= 0 then width
    else LastBreak(s, start, width)
  }

  /** The number of characters through the first newline at or behind the i-th, all `n` if there is none. */
  function ThroughNewline(s: string, start: nat, i: nat, n: nat): (m: nat)
    requires i <= n && start + n <= |s|
    ensures m <= n && (i < n ==> m > i)
    ensures m < n ==> NewlineAt(s, start + m - 1)
    ensures NoNewline(s, start + i, start + m - 2)
    decreases n - i
  {
    if i == n then n else if s[start + i] == '\n' then i + 1 else ThroughNewline(s, start, i + 1, n)
  }

  function LineLength(s: string, start: nat, width: nat): (n: nat)
    requires start < |s|
    ensures n <= width && start + n <= |s| && (width > 0 ==> n > 0)
  {
    if width == 0 then 0 else ThroughNewline(s, start, 0, WordLength(s, start, width))
  }

  /** What a reader may say of a line of `n` characters: it has no newline but perhaps its last character; and
      it ends with that newline, or with the text, or at the last break that the width leaves, or it is as wide
      as can be because it starts with an unbreakable word. A newline behind the last break does not count yet;
      and a rest that is exactly as wide as the line is broken like a longer one. */
  predicate WellCut(s: string, start: nat, width: nat, n: nat)
    requires start < |s|
    ensures WellCut(s, start, width, n) ==> start + n <= |s|
  {
    var unbreakable := NoBreak(s, start + 1, start + width);
    var short := |s| - start < width;
    && 0 < n <= width && start + n <= |s|
    && NoNewline(s, start, start + n - 2)
    && (|| (NewlineAt(s, start + n - 1) && (short || unbreakable || !NoBreak(s, start + n, start + width)))
        || (short && start + n == |s|)
        || (!short && BreakAt(s, start + n) && NoBreak(s, start + n + 1, start + width))
        || (!short && unbreakable && n == width))
  }

  lemma WordLengthMeaning(s: string, start: nat, width: nat, n: nat)
    requires start < |s| && 0 < n <= width && start + n <= |s|
    ensures var unbreakable, short := NoBreak(s, start + 1, start + width), |s| - start < width;
      && (n <= WordLength(s, start, width) <==> short || unbreakable || !NoBreak(s, start + n, start + width))
      && (n == WordLength(s, start, width) <==>
            || (short && start + n == |s|)
            || (!short && BreakAt(s, start + n) && NoBreak(s, start + n + 1, start + width))
            || (!short && unbreakable && n == width))
  {
    hide BreakAt;
    var k := LastBreak(s, start, width);
    assert NoBreak(s, start + n, start + width) <==> n > k by {
      if n <= k { assert BreakAt(s, start + k); }
    }
    assert NoBreak(s, start + 1, start + width) <==> k <= 0 by {
      if k > 0 { assert BreakAt(s, start + k); }
    }
    assert BreakAt(s, start + n) && NoBreak(s, start + n + 1, start + width) <==> n == k by {
      if n < k { assert BreakAt(s, start + k); }
    }
  }

  /** The computed line length is the only one that is well cut. */
  lemma LineLengthMeaning(s: string, start: nat, width: nat, n: nat)
    requires start < |s| && width > 0
    ensures WellCut(s, start, width, n) <==> n == LineLength(s, start, width)
  {
    hide NoBreak, BreakAt, NewlineAt, WordLength, ThroughNewline;
    var w, m := WordLength(s, start, width), LineLength(s, start, width);
    WordLengthMeaning(s, start, width, m);
    if 0 < n <= width && start + n <= |s| {
      WordLengthMeaning(s, start, width, n);
      assert n < m ==> !NewlineAt(s, start + n - 1);
      assert WellCut(s, start, width, n) && m < n ==> !NewlineAt(s, start + m - 1);
    }
  }

  predicate IsBlankOrBar(s: string, p: int) {
    0 <= p < |s| && (s[p] == ' ' || s[p] == ',' || s[p] == '|')
  }

  /** Why a line ends where it does: with a newline; with the text; in front of a space, a comma or a bar, and none
      of these follows that would also fit; or with the full width, if there is none of these to break at. */
  lemma CutExplained(s: string, start: nat, width: nat)
    requires start < |s| && width > 0
    ensures var end := start + LineLength(s, start, width);
      || s[end - 1] == '\n'
      || (end == |s| && |s| - start < width)
      || (IsBlankOrBar(s, end) && forall p :: end < p <= start + width ==> !IsBlankOrBar(s, p))
      || (end == start + width && forall p :: start < p <= start + width ==> !IsBlankOrBar(s, p))
  {
    hide LineLength, NoNewline;
    LineLengthMeaning(s, start, width, LineLength(s, start, width));
    assert forall p :: IsBlankOrBar(s, p) <==> BreakAt(s, p);
  }

  // ----- the whole text

  function Spaces(s: string, i: nat): (k: nat)
    requires i <= |s|
    ensures i + k <= |s|
    ensures forall j :: i <= j < i + k ==> s[j] == ' '
    ensures i + k < |s| ==> s[i + k] != ' '
    decreases |s| - i
  {
    if i < |s| && s[i] == ' ' then 1 + Spaces(s, i + 1) else 0
  }

  /** Where the line behind the one at `start` begins. */
  function NextLine(s: string, start: nat, width: nat): (next: nat)
    requires start < |s|
    ensures start <= next <= |s| && (width > 0 ==> next > start) && (next < |s| ==> s[next] != ' ')
  {
    var end := start + LineLength(s, start, width);
    end + Spaces(s, end)
  }

  /** The loop gets from `start` to the end: `width` leaves room for a line, and so does what the later lines
      have, unless there are none. With no room at all, it still passes over spaces, and may gain room from a
      negative offset. */
  predicate CanWrap(s: string, start: nat, width: int, offset: int)
    requires start <= |s|
  {
    || start == |s|
    || (width > 0 && (width - offset > 0 || NextLine(s, start, width) == |s|))
    || (width == 0 == start && (offset < 0 || Spaces(s, 0) == |s|))
  }

  /** The lines for what is left from `start`; later lines are indented by `offset` more. */
  function Wrap(s: string, start: nat, indent: int, width: int, offset: int): (lines: seq<Line>)
    requires start <= |s| && CanWrap(s, start, width, offset)
    decreases |s| - start, if width == 0 then 1 else 0
  {
    if start == |s| then []
    else
      var next := NextLine(s, start, width);
      [Line(indent, s[start..start + LineLength(s, start, width)])]
      + Wrap(s, next, indent + offset, width - offset, Pending(next, offset))
  }

  /** The offset is added once, when something of the text has been printed. */
  function Pending(start: nat, offset: int): int {
    if start == 0 then offset else 0
  }

  predicate Wrapping(s: string, maxWidth: int, indent: int) {
    |s| + indent > maxWidth && maxWidth > 0
  }

  /** Everything that is printed. */
  function Layout(s: string, maxWidth: int, indent: int, offset: int): (lines: seq<Line>)
    requires Wrapping(s, maxWidth, indent) ==> CanWrap(s, 0, maxWidth - indent, offset)
  {
    if Wrapping(s, maxWidth, indent) then Wrap(s, 0, indent, maxWidth - indent, offset) else [Line(indent, s)]
  }

  /** The lines in order make up the text, but for the spaces between lines; those are dropped altogether. */
  predicate MakesUp(lines: seq<Line>, s: string) {
    if lines == [] then s == ""
    else
      var n := |lines[0].text|;
      && n <= |s| && s[..n] == lines[0].text
      && MakesUp(lines[1..], s[n + Spaces(s, n)..])
  }

  lemma MakesUpFirst(line: Line, others: seq<Line>, s: string)
    requires |line.text| <= |s| && s[..|line.text|] == line.text
    requires MakesUp(others, s[|line.text| + Spaces(s, |line.text|)..])
    ensures MakesUp([line] + others, s)
  {
    hide Spaces;
    assert ([line] + others)[1..] == others;
  }

  /** A line in front of lines that make up what is behind it and its spaces. */
  lemma LineInFront(s: string, start: nat, n: nat, indent: int, others: seq<Line>)
    requires start + n <= |s|
    requires MakesUp(others, s[start + n + Spaces(s, start + n)..])
    ensures MakesUp([Line(indent, s[start..start + n])] + others, s[start..])
  {
    hide Spaces, MakesUp;
    var k := Spaces(s, start + n);
    SpacesBehind(s, start, n);
    assert s[start..][..n] == s[start..start + n] by { DropSlice(s, start, 0, n); }
    assert s[start..][n + k..] == s[start + n + k..] by { DropDrop(s, start, n + k); }
    MakesUpFirst(Line(indent, s[start..start + n]), others, s[start..]);
  }

  lemma NothingToWrap(s: string, indent: int, width: int, offset: int)
    ensures CanWrap(s, |s|, width, offset) && Wrap(s, |s|, indent, width, offset) == []
  {
  }

  /** After a line the loop can still get to the end; only a line without room stays where it is. */
  lemma CanStillWrap(s: string, start: nat, width: int, offset: int)
    requires start < |s| && CanWrap(s, start, width, offset)
    ensures width >= 0 && (start > 0 ==> width > 0)
    ensures var next := NextLine(s, start, width);
      && (next == start ==> width == 0 < -offset) && (width > 0 ==> Pending(next, offset) == 0)
      && CanWrap(s, next, width - offset, Pending(next, offset))
  {
    hide LineLength, NextLine, Spaces;
    if width == 0 { NextWithoutRoom(s); }
  }

  lemma NextWithoutRoom(s: string)
    requires s != ""
    ensures NextLine(s, 0, 0) == Spaces(s, 0)
  {
  }

  lemma WrapUnfolds(s: string, start: nat, indent: int, width: int, offset: int)
    requires start < |s| && CanWrap(s, start, width, offset)
    ensures width >= 0
    ensures var next := NextLine(s, start, width);
      && CanWrap(s, next, width - offset, Pending(next, offset))
      && Wrap(s, start, indent, width, offset)
         == [Line(indent, s[start..start + LineLength(s, start, width)])]
            + Wrap(s, next, indent + offset, width - offset, Pending(next, offset))
  {
    hide LineLength, NextLine, Spaces, CanWrap;
    CanStillWrap(s, start, width, offset);
  }

  lemma {:induction false} WrapMakesUp(s: string, start: nat, indent: int, width: int, offset: int)
    requires start <= |s| && CanWrap(s, start, width, offset)
    ensures MakesUp(Wrap(s, start, indent, width, offset), s[start..])
    decreases |s| - start, if width == 0 then 1 else 0
  {
    hide MakesUp, LineLength, Spaces, Wrap, CanWrap, Pending;
    if start == |s| {
      NothingMadeUp();
      NothingToWrap(s, indent, width, offset);
      assert s[start..] == "";
    } else {
      CanStillWrap(s, start, width, offset);
      WrapUnfolds(s, start, indent, width, offset);
      var n, next := LineLength(s, start, width), NextLine(s, start, width);
      WrapMakesUp(s, next, indent + offset, width - offset, Pending(next, offset));
      LineInFront(s, start, n, indent, Wrap(s, next, indent + offset, width - offset, Pending(next, offset)));
    }
  }

  lemma NothingMadeUp()
    ensures MakesUp([], "")
  {
  }

  lemma {:induction false} SpacesBehind(s: string, start: nat, n: nat)
    requires start + n <= |s|
    ensures Spaces(s[start..], n) == Spaces(s, start + n)
    decreases |s| - n
  {
    if start + n < |s| && s[start + n] == ' ' {
      SpacesBehind(s, start, n + 1);
    }
  }

  function WithoutSpaces(s: string): string {
    if s == "" then "" else (if s[0] == ' ' then "" else [s[0]]) + WithoutSpaces(s[1..])
  }

  function Texts(lines: seq<Line>): string {
    if lines == [] then "" else lines[0].text + Texts(lines[1..])
  }

  lemma {:induction false} WithoutSpacesConcat(a: string, b: string)
    ensures WithoutSpaces(a + b) == WithoutSpaces(a) + WithoutSpaces(b)
    decreases |a|
  {
    if a == "" {
      assert a + b == b;
    } else {
      assert (a + b)[0] == a[0] && (a + b)[1..] == a[1..] + b;
      WithoutSpacesConcat(a[1..], b);
    }
  }

  lemma {:induction false} WithoutSpacesDrop(s: string, k: nat)
    requires k <= |s| && forall j :: 0 <= j < k ==> s[j] == ' '
    ensures WithoutSpaces(s[k..]) == WithoutSpaces(s)
    decreases k
  {
    if k > 0 {
      assert s[k..] == s[1..][k - 1..];
      WithoutSpacesDrop(s[1..], k - 1);
    }
  }

  /** Lines that make up a text have all its characters but spaces, in order. */
  lemma {:induction false} NothingElseLost(lines: seq<Line>, s: string)
    requires MakesUp(lines, s)
    ensures WithoutSpaces(Texts(lines)) == WithoutSpaces(s)
    decreases |lines|
  {
    if lines != [] {
      var text, others := lines[0].text, lines[1..];
      var n := |text|;
      var k := Spaces(s, n);
      NothingElseLost(others, s[n + k..]);
      WithoutSpacesConcat(text, Texts(others));
      assert s == text + s[n..];
      WithoutSpacesConcat(text, s[n..]);
      DropDrop(s, n, k);
      WithoutSpacesDrop(s[n..], k);
    }
  }

  /** No line is empty or wider than `maxWidth`, the later ones share the deeper indent and do not start with a
      space. */
  predicate WellFormed(lines: seq<Line>, maxWidth: int, indent: int, offset: int, opening: bool) {
    forall i :: 0 <= i < |lines| ==>
      && lines[i].Width() <= maxWidth
      && lines[i].indent == (if i == 0 then indent else indent + offset)
      && lines[i].text != ""
      && (i > 0 || !opening ==> lines[i].text[0] != ' ')
  }

  lemma WellFormedFirst(line: Line, others: seq<Line>, maxWidth: int, indent: int, offset: int, opening: bool)
    requires line.Width() <= maxWidth && line.indent == indent && line.text != ""
    requires opening || line.text[0] != ' '
    requires WellFormed(others, maxWidth, indent + offset, 0, false)
    ensures WellFormed([line] + others, maxWidth, indent, offset, opening)
  {
    forall i | 0 < i < |[line] + others| ensures ([line] + others)[i] == others[i - 1] {}
  }

  lemma {:induction false} WrapWellFormed(s: string, start: nat, indent: int, width: int, offset: nat, opening: bool)
    requires start <= |s| && width - offset > 0 && indent >= 0
    requires opening || (start < |s| ==> s[start] != ' ')
    ensures WellFormed(Wrap(s, start, indent, width, offset), indent + width, indent, offset, opening)
    decreases |s| - start
  {
    hide LineLength, NextLine, WellFormed;
    if start == |s| {
      NoLines(indent + width, indent, offset, opening);
    } else {
      var n, next := LineLength(s, start, width), NextLine(s, start, width);
      WrapWellFormed(s, next, indent + offset, width - offset, 0, false);
      WellFormedFirst(Line(indent, s[start..start + n]), Wrap(s, next, indent + offset, width - offset, 0),
                      indent + width, indent, offset, opening);
    }
  }

  lemma NoLines(maxWidth: int, indent: int, offset: int, opening: bool)
    ensures WellFormed([], maxWidth, indent, offset, opening)
  {
  }

  /** The first line is indented by `indent`, the next by `offset` more; so are the later ones, unless the first
      line had no room and passed over nothing: then the offset is added once more. */
  function IndentAt(s: string, width: int, indent: int, offset: int, i: nat): int {
    if i == 0 then indent
    else if i >= 2 && width == 0 && s != "" && s[0] != ' ' then indent + 2 * offset
    else indent + offset
  }

  /** The line keeps to the maximum, whatever the sign of its indent. */
  predicate Within(lines: seq<Line>, maxWidth: int) {
    forall i :: 0 <= i < |lines| ==> lines[i].indent + |lines[i].text| <= maxWidth
  }

  predicate IndentsAre(lines: seq<Line>, first: int, later: int) {
    forall i :: 0 <= i < |lines| ==> lines[i].indent == if i == 0 then first else later
  }

  lemma LineAdded(line: Line, others: seq<Line>, maxWidth: int, later: int)
    requires Within(others, maxWidth) && line.indent + |line.text| <= maxWidth
    ensures Within([line] + others, maxWidth)
    ensures IndentsAre(others, later, later) ==> IndentsAre([line] + others, line.indent, later)
  {
    assert forall i :: 0 < i < |[line] + others| ==> ([line] + others)[i] == others[i - 1];
  }

  /** Where no offset is pending any more, all lines are indented alike. */
  lemma {:induction false} WrapIndents(s: string, start: nat, indent: int, width: int, offset: int)
    requires start <= |s| && CanWrap(s, start, width, offset) && width > 0
    ensures var lines := Wrap(s, start, indent, width, offset);
      Within(lines, indent + width) && IndentsAre(lines, indent, indent + offset)
    decreases |s| - start
  {
    hide LineLength, NextLine, Wrap, CanWrap, Within, IndentsAre;
    if start == |s| {
      NothingToWrap(s, indent, width, offset);
      assert Within([], indent + width) && IndentsAre([], indent, indent + offset) by {
        NoLinesAtAll(indent + width, indent, indent + offset);
      }
    } else {
      CanStillWrap(s, start, width, offset);
      WrapUnfolds(s, start, indent, width, offset);
      var line, next := Line(indent, s[start..start + LineLength(s, start, width)]), NextLine(s, start, width);
      var others := Wrap(s, next, indent + offset, width - offset, 0);
      if next == |s| {
        NothingToWrap(s, indent + offset, width - offset, 0);
        NoLinesAtAll(indent + width, indent + offset, indent + offset);
      } else {
        assert width - offset > 0 by { RoomBehind(s, start, width, offset); }
        WrapIndents(s, next, indent + offset, width - offset, 0);
      }
      LineAdded(line, others, indent + width, indent + offset);
    }
  }

  lemma NoLinesAtAll(maxWidth: int, first: int, later: int)
    ensures Within([], maxWidth) && IndentsAre([], first, later)
  {
  }

  lemma RoomBehind(s: string, start: nat, width: int, offset: int)
    requires start < |s| && CanWrap(s, start, width, offset) && width > 0 && NextLine(s, start, width) != |s|
    ensures width - offset > 0
  {
  }

  /** The indents of all lines, for every width, indent and offset. */
  lemma AllIndents(s: string, indent: int, width: int, offset: int)
    requires CanWrap(s, 0, width, offset)
    ensures var lines := Wrap(s, 0, indent, width, offset);
      && Within(lines, indent + width)
      && forall i :: 0 <= i < |lines| ==> lines[i].indent == IndentAt(s, width, indent, offset, i)
  {
    hide LineLength, Wrap;
    if s == "" {
      NothingToWrap(s, indent, width, offset);
    } else if width > 0 {
      WrapIndents(s, 0, indent, width, offset);
    } else {
      CanStillWrap(s, 0, width, offset);
      WrapUnfolds(s, 0, indent, width, offset);
      NextWithoutRoom(s);
      var next := NextLine(s, 0, 0);
      var others := Wrap(s, next, indent + offset, width - offset, Pending(next, offset));
      if next == |s| {
        NothingToWrap(s, indent + offset, width - offset, Pending(next, offset));
      } else {
        WrapIndents(s, next, indent + offset, width - offset, Pending(next, offset));
      }
      EmptyLineFirst(s, indent, width, offset, others);
    }
  }

  lemma EmptyLineFirst(s: string, indent: int, width: int, offset: int, others: seq<Line>)
    requires s != "" && width == 0
    requires others == [] || (Within(others, indent + width)
      && IndentsAre(others, indent + offset, indent + offset + Pending(Spaces(s, 0), offset)))
    ensures var lines := [Line(indent, "")] + others;
      && Within(lines, indent + width)
      && forall i :: 0 <= i < |lines| ==> lines[i].indent == IndentAt(s, width, indent, offset, i)
  {
    var lines := [Line(indent, "")] + others;
    assert forall i :: 0 < i < |lines| ==> lines[i] == others[i - 1];
  }

  /** What is printed, told by the lengths: a text that fits, or any if there is no maximum, is one line with the
      indent, as it is; a longer one is wrapped, with the first line at the indent and none beyond the maximum. */
  lemma LayoutIndents(s: string, maxWidth: int, indent: int, offset: int)
    requires Wrapping(s, maxWidth, indent) ==> CanWrap(s, 0, maxWidth - indent, offset)
    ensures var lines := Layout(s, maxWidth, indent, offset);
      && (|s| + indent <= maxWidth || maxWidth <= 0 ==> lines == [Line(indent, s)])
      && (|s| + indent > maxWidth > 0 ==>
            && Within(lines, maxWidth)
            && forall i :: 0 <= i < |lines| ==>
                 lines[i].indent == IndentAt(s, maxWidth - indent, indent, offset, i))
      && (lines != [] ==> lines[0].indent == indent)
      && (lines == [] ==> s == "")
  {
    hide Wrap, CanWrap, Within;
    if Wrapping(s, maxWidth, indent) {
      AllIndents(s, indent, maxWidth - indent, offset);
      if s != "" { WrapUnfolds(s, 0, indent, maxWidth - indent, offset); }
    }
  }

  /** The layout loses nothing but spaces between lines; and where every line has room, it stays within the
      width. */
  lemma LayoutMeaning(s: string, maxWidth: int, indent: int, offset: int)
    requires Wrapping(s, maxWidth, indent) ==> CanWrap(s, 0, maxWidth - indent, offset)
    ensures var lines := Layout(s, maxWidth, indent, offset);
      && MakesUp(lines, s)
      && WithoutSpaces(Texts(lines)) == WithoutSpaces(s)
      && (Wrapping(s, maxWidth, indent) && indent >= 0 && offset >= 0 && maxWidth - indent - offset > 0 ==>
            WellFormed(lines, maxWidth, indent, offset, true))
      && (!Wrapping(s, maxWidth, indent) && indent >= 0 ==>
            |lines| == 1 && (maxWidth > 0 ==> lines[0].Width() <= maxWidth))
  {
    hide MakesUp, WithoutSpaces, Texts, Wrap, WellFormed, CanWrap;
    if Wrapping(s, maxWidth, indent) {
      WrapMakesUp(s, 0, indent, maxWidth - indent, offset);
      assert s[0..] == s;
      if indent >= 0 && offset >= 0 && maxWidth - indent - offset > 0 {
        WrapWellFormed(s, 0, indent, maxWidth - indent, offset, true);
      }
    } else {
      OneLine(s, indent);
    }
    NothingElseLost(Layout(s, maxWidth, indent, offset), s);
  }

  lemma OneLine(s: string, indent: int)
    ensures MakesUp([Line(indent, s)], s)
  {
    assert [Line(indent, s)][1..] == [] && s[..|s|] == s && s[|s|..] == "";
  }

  /** Every line is cut as late as the rules for a line allow: each is well cut where it starts. */
  ghost predicate AllWellCut(lines: seq<Line>, s: string, start: nat, width: int, offset: nat)
    requires start <= |s|
    decreases |lines|
  {
    if lines == [] then start == |s|
    else
      var n := |lines[0].text|;
      && start < |s| && width > 0 && WellCut(s, start, width, n) && lines[0].text == s[start..start + n]
      && AllWellCut(lines[1..], s, start + n + Spaces(s, start + n), width - offset, 0)
  }

  lemma WrapEnds(s: string, start: nat, indent: int, width: int, offset: nat)
    requires start <= |s| && width - offset > 0
    ensures start == |s| <==> Wrap(s, start, indent, width, offset) == []
  {
  }

  /** The first line has the one indent, the later ones the deeper one. */
  predicate Indented(lines: seq<Line>, indent: int, offset: int) {
    forall i :: 0 <= i < |lines| ==> lines[i].indent == if i == 0 then indent else indent + offset
  }

  lemma IndentedTail(lines: seq<Line>, indent: int, offset: int)
    requires Indented(lines, indent, offset) && lines != []
    ensures lines[0].indent == indent && Indented(lines[1..], indent + offset, 0)
  {
  }

  /** The layout is the only one whose lines are all well cut. */
  lemma {:induction false} WrapWellCut(lines: seq<Line>, s: string, start: nat, indent: int, width: int, offset: nat)
    requires start <= |s| && width - offset > 0
    requires Indented(lines, indent, offset)
    ensures AllWellCut(lines, s, start, width, offset) <==> lines == Wrap(s, start, indent, width, offset)
    decreases |lines|
  {
    hide LineLength, WellCut, Spaces, Wrap, Pending, Indented;
    WrapEnds(s, start, indent, width, offset);
    if lines != [] && start < |s| {
      var n := |lines[0].text|;
      IndentedTail(lines, indent, offset);
      LineLengthMeaning(s, start, width, n);
      CanStillWrap(s, start, width, offset);
      WrapUnfolds(s, start, indent, width, offset);
      var next := NextLine(s, start, width);
      OnlyFirst(lines, Line(indent, s[start..start + LineLength(s, start, width)]),
                Wrap(s, next, indent + offset, width - offset, 0));
      if n == LineLength(s, start, width) {
        WrapWellCut(lines[1..], s, next, indent + offset, width - offset, 0);
      }
    }
  }

  lemma OnlyFirst(lines: seq<Line>, line: Line, others: seq<Line>)
    requires lines != []
    ensures lines == [line] + others <==> lines[0] == line && lines[1..] == others
  {
    assert lines == [lines[0]] + lines[1..];
    assert ([line] + others)[1..] == others;
  }

  // ----- the printing loops

  /** A string indexed as the source does: its end reads as NUL. */
  function CharAt(s: string, i: nat): char
    requires i <= |s|
  {
    if i < |s| then s[i] else '\0'
  }

  /** The trimmed length of the line at `start`. */
  method FindLength(s: string, start: nat, allowedLen: int) returns (stringLen: int)
    requires start < |s| && allowedLen >= 0
    ensures stringLen == LineLength(s, start, allowedLen)
  {
    stringLen := if |s| - start < allowedLen then |s| - start else allowedLen;
    if stringLen == allowedLen {
      while stringLen >= 0 && CharAt(s, stringLen + start) != ' ' && CharAt(s, stringLen + start) != ','
            && CharAt(s, stringLen + start) != '|'
        invariant -1 <= stringLen <= allowedLen <= |s| - start
        invariant LastBreak(s, start, allowedLen) == LastBreak(s, start, stringLen)
      {
        stringLen := stringLen - 1;
      }
    }
    if stringLen <= 0 {
      stringLen := allowedLen;
    }
    ghost var length := stringLen;
    assert allowedLen > 0 ==> length == WordLength(s, start, allowedLen);
    var i := 0;
    while i < stringLen
      invariant 0 <= i <= stringLen <= length
      invariant ThroughNewline(s, start, 0, length)
             == if i == stringLen then stringLen else ThroughNewline(s, start, i, length)
      invariant stringLen < length ==> i == stringLen
      decreases stringLen - i
    {
      if s[start + i] == '\n' {
        stringLen := i + 1;
      }
      i := i + 1;
    }
  }

  /** Moves `start` on by the spaces that would start the next line. */
  method SkipSpaces(s: string, first: nat, stringLen: nat) returns (start: nat)
    requires first + stringLen <= |s|
    ensures start == first + Spaces(s, first + stringLen)
  {
    start := first;
    while CharAt(s, stringLen + start) == ' ' && start < |s|
      invariant first <= start && start + stringLen <= |s|
      invariant start - first + Spaces(s, start + stringLen) == Spaces(s, first + stringLen)
    {
      start := start + 1;
    }
  }

  method SpacePrint(s: string, maxWidth: int, indentSpaces: int, secondLineOffset: int) returns (out: seq<Line>)
    requires Wrapping(s, maxWidth, indentSpaces) ==> CanWrap(s, 0, maxWidth - indentSpaces, secondLineOffset)
    ensures out == Layout(s, maxWidth, indentSpaces, secondLineOffset)
  {
    hide LineLength, Spaces, Wrap, CanWrap;
    var len := |s|;
    if len + indentSpaces > maxWidth && maxWidth > 0 {
      out := [];
      var indent, allowedLen, start := indentSpaces, maxWidth - indentSpaces, 0;
      while start < len
        invariant 0 <= start <= len
        invariant CanWrap(s, start, allowedLen, Pending(start, secondLineOffset))
        invariant out + Wrap(s, start, indent, allowedLen, Pending(start, secondLineOffset))
               == Layout(s, maxWidth, indentSpaces, secondLineOffset)
        decreases len - start, if allowedLen == 0 then 1 else 0
      {
        WrapStep(out, s, start, indent, allowedLen, Pending(start, secondLineOffset));
        var stringLen := FindLength(s, start, allowedLen);
        out := out + [Line(indent, s[start..start + stringLen])];
        if start == 0 {
          indent := indent + secondLineOffset;
          allowedLen := allowedLen - secondLineOffset;
        }
        start := SkipSpaces(s, start, stringLen);
        start := start + stringLen;
      }
      WrapEnd(out, s, indent, allowedLen, Pending(start, secondLineOffset));
    } else {
      out := [Line(indentSpaces, s)];
    }
  }

  lemma WrapStep(before: seq<Line>, s: string, start: nat, indent: int, width: int, offset: int)
    requires start < |s| && CanWrap(s, start, width, offset)
    ensures width >= 0 && (start > 0 ==> width > 0)
    ensures var n, next := LineLength(s, start, width), NextLine(s, start, width);
      && next == start + n + Spaces(s, start + n) && (next == start ==> width == 0 < -offset)
      && CanWrap(s, next, width - offset, Pending(next, offset))
      && before + Wrap(s, start, indent, width, offset)
         == before + [Line(indent, s[start..start + n])]
            + Wrap(s, next, indent + offset, width - offset, Pending(next, offset))
  {
    hide LineLength, Spaces, CanWrap, Wrap;
    CanStillWrap(s, start, width, offset);
    WrapUnfolds(s, start, indent, width, offset);
    var n, next := LineLength(s, start, width), NextLine(s, start, width);
    ConcatAssoc(before, [Line(indent, s[start..start + n])],
                Wrap(s, next, indent + offset, width - offset, Pending(next, offset)));
  }

  lemma WrapEnd(lines: seq<Line>, s: string, indent: int, width: int, offset: int)
    requires CanWrap(s, |s|, width, offset)
    ensures lines + Wrap(s, |s|, indent, width, offset) == lines
  {
  }
}
