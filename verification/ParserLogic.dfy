/** The stream loop of src/ParserLogic.cpp: it picks the first line of a beacon record, trims and joins its
    three lines, and hands the packet to the text decoder. */
module ParserLogic {
  import opened CArith
  import opened SeqFacts
  import opened Advertising
  import opened TextDecoder
  import opened HexColumns
  import opened DecoderAgreement

  predicate Blank(s: string) {
    forall i :: 0 <= i < |s| ==> s[i] == ' '
  }

  function TrimLeft(s: string): (t: string)
    requires !Blank(s)
    ensures t != "" && t[0] != ' ' && !Blank(t)
  {
    if s[0] != ' ' then s else TrimLeft(s[1..])
  }

  function TrimRight(s: string): (t: string)
    requires !Blank(s)
    ensures t != "" && t[|t| - 1] != ' '
  {
    if s[|s| - 1] != ' ' then s
    else
      assert !Blank(s[..|s| - 1]);
      TrimRight(s[..|s| - 1])
  }

  /** `trim` of a line that is not blank; on a blank one it throws. */
  function Trim(s: string): string
    requires !Blank(s)
  {
    TrimRight(TrimLeft(s))
  }

  /** Trimming takes off the spaces at both ends, and nothing else. */
  lemma TrimExactly(s: string) returns (i: nat, j: nat)
    requires !Blank(s)
    ensures i < j <= |s| && Trim(s) == s[i..j] && Blank(s[..i]) && Blank(s[j..]) && s[i] != ' ' && s[j - 1] != ' '
  {
    i := TrimLeftCut(s);
    var n := TrimRightCut(TrimLeft(s));
    j := i + n;
    DropSlice(s, i, 0, n);
    DropDrop(s, i, n);
  }

  lemma {:induction false} TrimLeftCut(s: string) returns (i: nat)
    requires !Blank(s)
    ensures i < |s| && TrimLeft(s) == s[i..] && Blank(s[..i])
    decreases |s|
  {
    if s[0] != ' ' {
      i := 0;
    } else {
      var k := TrimLeftCut(s[1..]);
      i := k + 1;
      DropDrop(s, 1, k);
      assert forall j :: 0 < j < i ==> s[j] == s[1..][..k][j - 1];
    }
  }

  lemma {:induction false} TrimRightCut(s: string) returns (j: nat)
    requires !Blank(s)
    ensures 0 < j <= |s| && TrimRight(s) == s[..j] && Blank(s[j..])
    decreases |s|
  {
    if s[|s| - 1] != ' ' {
      j := |s|;
    } else {
      var front := s[..|s| - 1];
      j := TrimRightCut(front);
      assert front[..j] == s[..j];
      assert forall i :: j <= i < |s| - 1 ==> s[i] == front[j..][i - j];
    }
  }

  /** The line without one trailing space. */
  function DropLastSpace(line: string): string
    requires line != ""
  {
    if line[|line| - 1] == ' ' then line[..|line| - 1] else line
  }

  const EVENT_START := "> 04 3E"
  const BEACON_TAG := " 1A FF "

  predicate TagFound(line: string, p: int) {
    0 <= p <= |line| - 7 && line[p..p + 7] == BEACON_TAG
  }

  /** The test for the first line of a beacon record. */
  predicate Matches(line: string) {
    EVENT_START <= line && exists p :: 16 <= p < |line| && TagFound(line, p)
  }

  /** How the stream loop ends: with the last line, with an exception, or never, in the text decoder. */
  datatype Ending = AllRead | Crashed | Hung

  /** The run of the stream loop: the decoded packets, and how it ends. */
  datatype Run = Run(events: seq<Outcome>, ending: Ending)

  predicate NoMinusLines(lines: seq<string>) {
    forall i :: 0 <= i < |lines| ==> NoMinus(lines[i])
  }

  lemma {:induction false} TrimNoMinus(s: string)
    requires !Blank(s) && NoMinus(s)
    ensures NoMinus(Trim(s))
  {
    TrimLeftNoMinus(s);
    TrimRightNoMinus(TrimLeft(s));
  }

  lemma {:induction false} TrimLeftNoMinus(s: string)
    requires !Blank(s) && NoMinus(s)
    ensures NoMinus(TrimLeft(s))
  {
    if s[0] == ' ' { TrimLeftNoMinus(s[1..]); }
  }

  lemma {:induction false} TrimRightNoMinus(s: string)
    requires !Blank(s) && NoMinus(s)
    ensures NoMinus(TrimRight(s))
  {
    if s[|s| - 1] == ' ' { TrimRightNoMinus(s[..|s| - 1]); }
  }

  lemma MatchingLineNotBlank(line: string)
    requires Matches(line)
    ensures !Blank(line)
  {
    assert line[0] == '>';
  }

  /** The packet joined from the three lines of a record. */
  function Join(first: string, second: string, third: string): string
    requires !Blank(first) && !Blank(second) && !Blank(third)
  {
    Trim(first) + " " + Trim(second) + " " + Trim(third)
  }

  lemma JoinNoMinus(first: string, second: string, third: string)
    requires first != "" && !Blank(DropLastSpace(first)) && !Blank(second) && !Blank(third)
    requires NoMinus(first) && NoMinus(second) && NoMinus(third)
    ensures NoMinus(Join(DropLastSpace(first), second, third))
  {
    TrimNoMinus(DropLastSpace(first));
    TrimNoMinus(second);
    TrimNoMinus(third);
  }

  /** The stream loop as a function of the lines. Lines missing at the end are read as empty ones. */
  function StreamRun(lines: seq<string>): (r: Run)
    decreases |lines|
  {
    if lines == [] then Run([], AllRead)
    else if lines[0] == "" then Run([], Crashed)
    else
      var line := DropLastSpace(lines[0]);
      if !Matches(line) then StreamRun(lines[1..])
      else if |lines| < 3 || Blank(lines[1]) || Blank(lines[2]) then Run([], Crashed)
      else
        assert line[0] == '>';
        var event, rest := DecodeText(Join(line, lines[1], lines[2])), StreamRun(lines[3..]);
        if event == Endless then Run([], Hung) else Run([event] + rest.events, rest.ending)
  }

  /** One pass of the loop. */
  lemma StreamStep(lines: seq<string>)
    ensures StreamRun(lines) ==
      if lines == [] then Run([], AllRead)
      else if lines[0] == "" then Run([], Crashed)
      else if !Matches(DropLastSpace(lines[0])) then StreamRun(lines[1..])
      else if |lines| < 3 || Blank(lines[1]) || Blank(lines[2]) then Run([], Crashed)
      else (
        MatchingLineNotBlank(DropLastSpace(lines[0]));
        Extended(DecodeText(Join(DropLastSpace(lines[0]), lines[1], lines[2])), StreamRun(lines[3..])))
  {
    hide Join, DecodeText, DropLastSpace;
  }

  /** The loop passes over a line that does not match. */
  lemma StreamPasses(lines: seq<string>)
    requires lines != [] && lines[0] != "" && !Matches(DropLastSpace(lines[0]))
    ensures StreamRun(lines) == StreamRun(lines[1..])
  {
    hide Matches, Join, DecodeText;
  }

  /** The loop ends if no line contains a minus sign. */
  lemma {:induction false} StreamEnds(lines: seq<string>)
    requires NoMinusLines(lines)
    ensures StreamRun(lines).ending != Hung
    decreases |lines|
  {
    hide Matches, Join, DecodeText;
    if lines != [] && lines[0] != "" {
      var line := DropLastSpace(lines[0]);
      if !Matches(line) {
        StreamEnds(lines[1..]);
      } else if |lines| >= 3 && !Blank(lines[1]) && !Blank(lines[2]) {
        MatchingLineNotBlank(line);
        JoinNoMinus(lines[0], lines[1], lines[2]);
        EndlessWalk(Join(line, lines[1], lines[2]));
        StreamEnds(lines[3..]);
      }
    }
  }

  method ProcessStream(lines: seq<string>) returns (events: seq<Outcome>, crashed: bool)
    requires StreamRun(lines).ending != Hung
    ensures Run(events, if crashed then Crashed else AllRead) == StreamRun(lines)
  {
    events, crashed := [], false;
    var k := 0;
    while k < |lines|
      invariant 0 <= k <= |lines|
      invariant StreamRun(lines) == Run(events + StreamRun(lines[k..]).events, StreamRun(lines[k..]).ending)
    {
      hide Matches, Join, DecodeText, DropLastSpace, StreamRun;
      ghost var rest := lines[k..];
      StreamStep(rest);
      DropDrop(lines, k, 1);
      var line := lines[k];
      if line == "" { return events, true; }
      line := DropLastSpace(line);
      if Matches(line) {
        if k + 3 > |lines| || Blank(lines[k + 1]) || Blank(lines[k + 2]) { return events, true; }
        DropDrop(lines, k, 3);
        MatchingLineNotBlank(line);
        var event := ParseHCIDump(Join(line, lines[k + 1], lines[k + 2]));
        ConcatAssoc(events, [event], StreamRun(lines[k + 3..]).events);
        events := events + [event];
        k := k + 3;
      } else {
        k := k + 1;
      }
    }
  }

  /** A line of the printed record: a two-character margin, the columns and a final space. */
  function PrintedLine(margin: string, os: Octets): string {
    margin + Columns(os) + " "
  }

  lemma ColumnsEnds(os: Octets)
    requires os != []
    ensures Columns(os)[0] != ' ' && Columns(os)[|Columns(os)| - 1] != ' '
  {
    ColumnsAt(os, 0);
    ColumnsAt(os, |os| - 1);
    var s := Columns(os);
    assert s[0] == s[0..2][0] && s[|s| - 1] == s[3 * (|os| - 1)..3 * (|os| - 1) + 2][1];
  }

  /** Trimming a continuation line leaves its columns. */
  lemma TrimContinuation(os: Octets)
    requires os != []
    ensures !Blank(PrintedLine("  ", os)) && Trim(PrintedLine("  ", os)) == Columns(os)
  {
    ColumnsEnds(os);
    var s, c := PrintedLine("  ", os), Columns(os);
    assert s[2] == c[0];
    assert s[1..][1..] == c + " ";
    assert !Blank(s[1..]) && !Blank(c + " ") by { assert s[1..][1] == c[0] && (c + " ")[0] == c[0]; }
    assert TrimLeft(s) == TrimLeft(s[1..]) == TrimLeft(s[1..][1..]) == c + " ";
    assert (c + " ")[..|c + " "| - 1] == c;
    assert !Blank(c);
    assert TrimRight(c + " ") == TrimRight(c) == c;
  }

  /** The first line without its final space has nothing to trim. */
  lemma TrimFirst(os: Octets)
    requires os != []
    ensures PrintedLine("> ", os) != "" && DropLastSpace(PrintedLine("> ", os)) == PacketText(os)
    ensures !Blank(PacketText(os)) && Trim(PacketText(os)) == PacketText(os)
  {
    ColumnsEnds(os);
    var s := PacketText(os);
    assert PrintedLine("> ", os) == s + " ";
    ConcatParts(s, " ");
    assert s[0] == '>' && s[|s| - 1] == Columns(os)[|Columns(os)| - 1];
  }

  /** The three lines of a record join to the packet text of its frame. */
  lemma JoinRestoresPacket(a: Octets, b: Octets, c: Octets)
    requires a != [] && b != [] && c != []
    ensures var first, second, third := DropLastSpace(PrintedLine("> ", a)), PrintedLine("  ", b), PrintedLine("  ", c);
      && !Blank(first) && !Blank(second) && !Blank(third)
      && Join(first, second, third) == PacketText(a + b + c)
  {
    TrimFirst(a);
    TrimContinuation(b);
    TrimContinuation(c);
    ColumnsConcat(a, b);
    ColumnsConcat(a + b, c);
    hide *;
    ConcatAssoc("> ", Columns(a), " ");
    ConcatAssoc("> ", Columns(a) + " ", Columns(b));
    ConcatAssoc("> ", Columns(a) + " " + Columns(b), " ");
    ConcatAssoc("> ", Columns(a) + " " + Columns(b) + " ", Columns(c));
  }

  /** The first line carries an LE meta event, and the octets 1A FF stand in it, from octet 5 on and not
      at its end. */
  ghost predicate TagInFirstLine(os: Octets) {
    && |os| >= 2 && os[0] == 0x04 && os[1] == 0x3E
    && exists j :: 5 <= j < |os| - 2 && os[j] == 0x1A && os[j + 1] == 0xFF
  }

  lemma {:induction false} SpacesOfColumns(os: Octets, q: nat)
    requires q < |Columns(os)|
    ensures Columns(os)[q] == ' ' <==> q % 3 == 2
  {
    var i := q / 3;
    ColumnsAt(os, i);
    var pair := Columns(os)[3 * i..3 * i + 2];
    if q % 3 == 0 { assert Columns(os)[q] == pair[0]; }
    if q % 3 == 1 { assert Columns(os)[q] == pair[1]; }
  }

  lemma PairInjective(o: uint8, p: uint8)
    requires HexPair(o) == HexPair(p)
    ensures o == p
  {
    PairValue(o);
    PairValue(p);
  }

  /** The seven characters of the tag, two columns wide. */
  lemma TagAt(os: Octets, j: nat)
    requires 0 < j < |os| - 2
    ensures var p := 3 * j + 1;
      p + 7 <= |PacketText(os)|
      && (PacketText(os)[p..p + 7] == BEACON_TAG <==> os[j] == 0x1A && os[j + 1] == 0xFF)
  {
    hide Columns, HexPair;
    var p, text, columns := 3 * j + 1, PacketText(os), Columns(os);
    ColumnsAt(os, j - 1);
    ColumnsAt(os, j);
    ColumnsAt(os, j + 1);
    ConcatParts("> ", columns);
    DropSlice(text, 2, 3 * j, 3 * j + 2);
    DropSlice(text, 2, 3 * (j + 1), 3 * (j + 1) + 2);
    DropSlice(text, 2, 3 * j - 1, 3 * j + 6);
    TagPairs();
    SliceSlice(columns, 3 * j - 1, 3 * j + 6, 1, 3);
    SliceSlice(columns, 3 * j - 1, 3 * j + 6, 4, 6);
    TagOfPairs(columns[3 * j - 1..3 * j + 6], HexPair(os[j]), HexPair(os[j + 1]));
    if HexPair(os[j]) == "1A" { PairInjective(os[j], 0x1A); }
    if HexPair(os[j + 1]) == "FF" { PairInjective(os[j + 1], 0xFF); }
  }

  lemma TagOfPairs(seven: string, first: string, second: string)
    requires |seven| == 7 && |first| == |second| == 2
    requires seven[0] == ' ' && seven[3] == ' ' && seven[6] == ' '
    requires seven[1..3] == first && seven[4..6] == second
    ensures seven == BEACON_TAG <==> first == "1A" && second == "FF"
  {
    assert seven == [seven[0], seven[1], seven[2], seven[3], seven[4], seven[5], seven[6]];
    assert first == [seven[1], seven[2]] && second == [seven[4], seven[5]];
  }

  lemma TagPairs()
    ensures HexPair(0x1A) == "1A" && HexPair(0xFF) == "FF" && HexPair(0x04) == "04" && HexPair(0x3E) == "3E"
  {
  }

  /** The tag can only be found between whole columns. */
  lemma TagOnColumns(os: Octets, p: nat)
    requires 16 <= p <= |PacketText(os)| - 7 && PacketText(os)[p..p + 7] == BEACON_TAG
    ensures p % 3 == 1 && 5 <= p / 3 < |os| - 2
  {
    hide Columns;
    assert PacketText(os)[p] == PacketText(os)[p..p + 7][0] == ' ';
    assert Columns(os)[p - 2] == ' ';
    SpacesOfColumns(os, p - 2);
  }

  lemma EventStartOctets(os: Octets)
    ensures EVENT_START <= PacketText(os) <==> |os| >= 2 && os[0] == 0x04 && os[1] == 0x3E
  {
    TagPairs();
    var text := PacketText(os);
    if |os| >= 2 {
      ColumnsAt(os, 0);
      ColumnsAt(os, 1);
      assert text[..7] == "> " + HexPair(os[0]) + " " + HexPair(os[1]) by {
        assert text[2..4] == Columns(os)[0..2] && text[4] == Columns(os)[2] && text[5..7] == Columns(os)[3..5];
        assert text[..7] == text[..2] + text[2..4] + [text[4]] + text[5..7];
      }
      if EVENT_START <= text {
        assert text[..7] == EVENT_START;
        assert text[..7][2..4] == HexPair(os[0]) == HexPair(0x04);
        assert text[..7][5..7] == HexPair(os[1]) == HexPair(0x3E);
        PairInjective(os[0], 0x04);
        PairInjective(os[1], 0x3E);
      }
    }
  }

  /** The text test accepts a first line exactly when its octets carry the tag. */
  lemma MatchesByOctets(os: Octets)
    ensures Matches(PacketText(os)) <==> TagInFirstLine(os)
  {
    EventStartOctets(os);
    var text := PacketText(os);
    if p :| 16 <= p < |text| && TagFound(text, p) {
      TagOnColumns(os, p);
      TagAt(os, p / 3);
    }
    if j :| 5 <= j < |os| - 2 && os[j] == 0x1A && os[j + 1] == 0xFF {
      TagAt(os, j);
      assert TagFound(text, 3 * j + 1);
    }
  }

  /** The continuation lines of a record. */
  function Continued(more: seq<Octets>): (lines: seq<string>)
    ensures |lines| == |more|
  {
    if more == [] then [] else [PrintedLine("  ", more[0])] + Continued(more[1..])
  }

  predicate NoneEmpty(more: seq<Octets>) {
    forall i :: 0 <= i < |more| ==> more[i] != []
  }

  lemma ContinuationNoMatch(os: Octets)
    requires os != []
    ensures PrintedLine("  ", os) != "" && !Matches(DropLastSpace(PrintedLine("  ", os)))
  {
    var line := DropLastSpace(PrintedLine("  ", os));
    assert line[0] == ' ' != EVENT_START[0];
  }

  lemma ContinuedFirst(more: seq<Octets>, rest: seq<string>)
    requires more != []
    ensures var lines := Continued(more) + rest;
      lines != [] && lines[0] == PrintedLine("  ", more[0]) && lines[1..] == Continued(more[1..]) + rest
  {
    hide PrintedLine;
    ConcatAssoc([PrintedLine("  ", more[0])], Continued(more[1..]), rest);
  }

  /** Lines that continue no record are passed over. */
  lemma {:induction false} ContinuationsSkipped(more: seq<Octets>, rest: seq<string>)
    requires NoneEmpty(more)
    ensures StreamRun(Continued(more) + rest) == StreamRun(rest)
    decreases |more|
  {
    hide Matches, PrintedLine, DropLastSpace, StreamRun, Continued;
    if more == [] {
      assert Continued(more) + rest == rest by { NoneContinued(rest); }
    } else {
      ContinuationNoMatch(more[0]);
      ContinuedFirst(more, rest);
      StreamPasses(Continued(more) + rest);
      ContinuationsSkipped(more[1..], rest);
    }
  }

  lemma NoneContinued(rest: seq<string>)
    ensures Continued([]) + rest == rest
  {
  }

  /** The lines of a printed frame, and what follows them. */
  function RecordLines(a: Octets, more: seq<Octets>, rest: seq<string>): seq<string> {
    [PrintedLine("> ", a)] + (Continued(more) + rest)
  }

  /** A record whose first line does not show the tag is passed over, however many lines it has. */
  lemma RecordSkipped(a: Octets, more: seq<Octets>, rest: seq<string>)
    requires a != [] && NoneEmpty(more) && !TagInFirstLine(a)
    ensures StreamRun(RecordLines(a, more, rest)) == StreamRun(rest)
  {
    hide Matches, PrintedLine, PacketText;
    TrimFirst(a);
    MatchesByOctets(a);
    ContinuationsSkipped(more, rest);
    assert RecordLines(a, more, rest)[1..] == Continued(more) + rest;
  }

  lemma ContinuedTwo(b: Octets, c: Octets, more: seq<Octets>)
    ensures Continued([b, c] + more) == [PrintedLine("  ", b), PrintedLine("  ", c)] + Continued(more)
  {
    hide PrintedLine;
    assert ([b, c] + more)[1..] == [c] + more && ([c] + more)[1..] == more;
    assert Continued([b, c] + more) == [PrintedLine("  ", b)] + Continued([c] + more);
    assert Continued([c] + more) == [PrintedLine("  ", c)] + Continued(more);
  }

  /** If it shows the tag, the first three lines are joined and decoded, and any further ones passed over. */
  lemma RecordDecoded(a: Octets, b: Octets, c: Octets, more: seq<Octets>, rest: seq<string>)
    requires a != [] && b != [] && c != [] && NoneEmpty(more) && TagInFirstLine(a)
    ensures StreamRun(RecordLines(a, [b, c] + more, rest))
         == Run([DecodeText(PacketText(a + b + c))] + StreamRun(rest).events, StreamRun(rest).ending)
  {
    hide Matches, Join, DecodeText, PrintedLine, PacketText;
    var lines := RecordLines(a, [b, c] + more, rest);
    ContinuedTwo(b, c, more);
    assert lines[0] == PrintedLine("> ", a) && lines[1] == PrintedLine("  ", b) && lines[2] == PrintedLine("  ", c);
    assert lines[3..] == Continued(more) + rest;
    TrimFirst(a);
    JoinRestoresPacket(a, b, c);
    MatchesByOctets(a);
    ContinuationsSkipped(more, rest);
    PacketNoMinus(a + b + c);
    EndlessWalk(PacketText(a + b + c));
  }

  /** What a decoded packet adds to a run. */
  function Extended(event: Outcome, rest: Run): Run {
    if event == Endless then Run([], Hung) else Run([event] + rest.events, rest.ending)
  }

  /** A record that carries the tag but has only two lines takes the next line as its third, whatever it is; the
      loop crashes if there is none or if it is blank. */
  lemma TwoLineRecord(a: Octets, b: Octets, rest: seq<string>)
    requires a != [] && b != [] && TagInFirstLine(a)
    ensures StreamRun(RecordLines(a, [b], rest)) ==
      if rest == [] || Blank(rest[0]) then Run([], Crashed)
      else Extended(DecodeText(PacketText(a + b) + " " + Trim(rest[0])), StreamRun(rest[1..]))
  {
    hide Matches, DecodeText, PrintedLine, PacketText, Blank, Trim;
    var lines := RecordLines(a, [b], rest);
    assert Continued([b]) == [PrintedLine("  ", b)] by { assert [b][1..] == []; }
    assert lines[0] == PrintedLine("> ", a) && lines[1] == PrintedLine("  ", b);
    assert rest != [] ==> lines[2] == rest[0] && lines[3..] == rest[1..];
    TrimFirst(a);
    TrimContinuation(b);
    JoinTwo(a, b);
    MatchesByOctets(a);
  }

  lemma JoinTwo(a: Octets, b: Octets)
    requires a != [] && b != []
    ensures PacketText(a) + " " + Columns(b) == PacketText(a + b)
  {
    ColumnsConcat(a, b);
  }

  /** One that has only one line takes the next two. */
  lemma OneLineRecord(a: Octets, rest: seq<string>)
    requires a != [] && TagInFirstLine(a)
    ensures StreamRun(RecordLines(a, [], rest)) ==
      if |rest| < 2 || Blank(rest[0]) || Blank(rest[1]) then Run([], Crashed)
      else Extended(DecodeText(PacketText(a) + " " + Trim(rest[0]) + " " + Trim(rest[1])), StreamRun(rest[2..]))
  {
    hide Matches, DecodeText, PrintedLine, PacketText, Blank, Trim;
    var lines := RecordLines(a, [], rest);
    assert lines == [PrintedLine("> ", a)] + rest;
    assert |rest| >= 2 ==> lines[1] == rest[0] && lines[2] == rest[1] && lines[3..] == rest[2..];
    TrimFirst(a);
    MatchesByOctets(a);
  }

  /** From the printed lines of a frame to its beacon, whatever lines follow and wherever the frame is cut: it is
      decoded exactly if its first line shows the manufacturer data's length and type, else passed over. */
  lemma StreamDecodesRecord(r: Report, a: Octets, b: Octets, c: Octets, rest: seq<string>)
    requires r.Valid() && a + b + c == r.Frame() && a != [] && b != [] && c != []
    ensures StreamRun(RecordLines(a, [b, c], rest)) ==
      if TagInFirstLine(a) then
        Run([Parsed(FieldsOf(r.beacon), r.rssi as int - 256)] + StreamRun(rest).events, StreamRun(rest).ending)
      else StreamRun(rest)
  {
    hide TagInFirstLine, DecodeText, Report.Frame, StreamRun, RecordLines;
    if TagInFirstLine(a) {
      assert [b, c] + [] == [b, c];
      RecordDecoded(a, b, c, [], rest);
      TextDecodes(r);
    } else {
      RecordSkipped(a, [b, c], rest);
    }
  }
}
