/** The text decoder of src/Beacon.cpp: from a line of hexadecimal columns, as `hcidump -R` prints a
    frame, to a beacon record. */
module TextDecoder {
  import opened Advertising

  /** What a call of `parseHCIDump` comes to: a beacon; the default beacon, after an exception was caught;
      a read past the end of the packet; or no return at all. */
  datatype Outcome = Parsed(beacon: Fields, rssi: int) | Rejected | Overrun | Endless

  const HCIDUMP_PREFIX := 7
  const BADDR_SIZE := 6

  predicate IsSpace(c: char) {
    c == ' ' || '\t' <= c <= '\r'
  }

  function HexDigit(c: char): (v: int)
    ensures -1 <= v < 16
  {
    if '0' <= c <= '9' then c as int - '0' as int
    else if 'A' <= c <= 'F' then c as int - 'A' as int + 10
    else if 'a' <= c <= 'f' then c as int - 'a' as int + 10
    else -1
  }

  predicate NoMinus(s: string) {
    forall i :: 0 <= i < |s| ==> s[i] != '-'
  }

  /** The longest prefix of hexadecimal digits, continued from `acc`. */
  function HexPrefix(s: string, acc: nat): (v: nat)
    ensures |s| <= 2 ==> v <= 256 * acc + 255
    ensures |s| <= 1 ==> v <= 16 * acc + 15
  {
    if s == "" || HexDigit(s[0]) < 0 then acc else HexPrefix(s[1..], 16 * acc + HexDigit(s[0]))
  }

  /** `mystoi` in base 16 of at most two characters: leading white space and a sign are taken, and text
      without digits gives zero. (A prefix 0x would need a third character to matter.) */
  function MyStoi(s: string): (v: int)
    requires |s| <= 2
    ensures -15 <= v <= 255 && (NoMinus(s) ==> 0 <= v)
  {
    if s == "" then 0
    else if IsSpace(s[0]) then MyStoi(s[1..])
    else if s[0] == '-' then -(HexPrefix(s[1..], 0) as int)
    else if s[0] == '+' then HexPrefix(s[1..], 0)
    else HexPrefix(s, 0)
  }

  /** `substr(index, 2)`, which throws beyond the end. */
  function Column(packet: string, index: int): (s: string)
    requires 0 <= index <= |packet|
    ensures |s| <= 2
  {
    if index + 2 <= |packet| then packet[index..index + 2] else packet[index..]
  }

  lemma ColumnNoMinus(packet: string, index: int)
    requires 0 <= index <= |packet| && NoMinus(packet)
    ensures NoMinus(Column(packet, index))
  {
  }

  /** The value of the column at `index`; an octet, unless it holds a minus sign. */
  function At(packet: string, index: int): (v: int)
    requires 0 <= index <= |packet|
    ensures -15 <= v <= 255 && (NoMinus(packet) ==> 0 <= v)
  {
    var column := Column(packet, index);
    if NoMinus(packet) then
      ColumnNoMinus(packet, index);
      MyStoi(column)
    else MyStoi(column)
  }

  // ----- the walk over the AD structures

  const THROWN := -1
  const ENDLESS := -2

  /** The length and the type of the structure at `index` can be read. */
  predicate Readable(packet: string, index: int) {
    0 <= index && index + 3 <= |packet|
  }

  /** The walk goes on to a further structure. */
  predicate GoesOn(packet: string, index: int) {
    Readable(packet, index) && At(packet, index + 3) != 0xFF && index < |packet| - 1
  }

  /** A negative length leads back, or nowhere. */
  function NextIndex(packet: string, index: int): int
    requires GoesOn(packet, index)
  {
    index + 3 * (At(packet, index) + 1)
  }

  /** Where at most `n` steps of the walk stop: at the first structure of type 0xFF, or with an exception, or
      not yet. */
  function WalkWithin(packet: string, index: int, n: nat): (end: int)
    ensures end == THROWN || end == ENDLESS || Readable(packet, end)
    decreases n
  {
    if !Readable(packet, index) then THROWN
    else if !GoesOn(packet, index) then index
    else if n == 0 then ENDLESS
    else WalkWithin(packet, NextIndex(packet, index), n - 1)
  }

  /** Where the walk stops, if it does. */
  function Walk(packet: string, index: int): (end: int)
    ensures end == THROWN || end == ENDLESS || Readable(packet, end)
  {
    WalkWithin(packet, index, |packet|)
  }

  /** A walk that has stopped stays there. */
  lemma {:induction false} WalkStops(packet: string, index: int, n: nat, m: nat)
    requires WalkWithin(packet, index, n) != ENDLESS && n <= m
    ensures WalkWithin(packet, index, m) == WalkWithin(packet, index, n)
    decreases n
  {
    hide At;
    if GoesOn(packet, index) { WalkStops(packet, NextIndex(packet, index), n - 1, m - 1); }
  }

  /** The index after `k` steps. */
  function After(packet: string, index: int, k: nat): int
    decreases k
  {
    if k == 0 || !GoesOn(packet, index) then index else After(packet, NextIndex(packet, index), k - 1)
  }

  lemma {:induction false} AfterSum(packet: string, index: int, i: nat, k: nat)
    ensures After(packet, After(packet, index, i), k) == After(packet, index, i + k)
    decreases i
  {
    hide GoesOn, NextIndex;
    if i > 0 && GoesOn(packet, index) { AfterSum(packet, NextIndex(packet, index), i - 1, k); }
  }

  /** The walk has not stopped within `n` steps exactly if it goes on after `n` steps. */
  lemma {:induction false} EndlessWithin(packet: string, index: int, n: nat)
    ensures WalkWithin(packet, index, n) == ENDLESS <==> GoesOn(packet, After(packet, index, n))
    decreases n
  {
    hide At;
    if n > 0 && GoesOn(packet, index) { EndlessWithin(packet, NextIndex(packet, index), n - 1); }
  }

  /** Each of more than `n` numbers below `n` cannot be different. */
  lemma {:induction false} Pigeonhole(s: seq<int>, n: nat) returns (i: nat, j: nat)
    requires |s| > n && forall k :: 0 <= k < |s| ==> 0 <= s[k] < n
    ensures i < j < |s| && s[i] == s[j]
    decreases n
  {
    if k :| 0 <= k < |s| - 1 && s[k] == s[|s| - 1] {
      i, j := k, |s| - 1;
    } else {
      // the other numbers avoid the last one, so that those above it can move down by one
      var last := s[|s| - 1];
      var t := seq(|s| - 1, k requires 0 <= k < |s| - 1 => if s[k] > last then s[k] - 1 else s[k]);
      i, j := Pigeonhole(t, n - 1);
      assert s[i] != last && s[j] != last;
    }
  }

  /** The indices after 0 to `n` steps. */
  function Trail(packet: string, index: int, n: nat): (s: seq<int>)
    ensures |s| == n + 1 && forall k :: 0 <= k <= n ==> s[k] == After(packet, index, k)
  {
    seq(n + 1, k requires 0 <= k <= n => After(packet, index, k))
  }

  lemma {:induction false} GoesOnBefore(packet: string, index: int, k: nat, n: nat)
    requires GoesOn(packet, After(packet, index, n)) && k <= n
    ensures GoesOn(packet, After(packet, index, k))
    decreases k
  {
    hide GoesOn, NextIndex;
    if k > 0 && GoesOn(packet, index) { GoesOnBefore(packet, NextIndex(packet, index), k - 1, n - 1); }
  }

  /** Once it has come back to an index it goes round for ever. */
  lemma {:induction false} RoundAndRound(packet: string, index: int, i: nat, j: nat, m: nat)
    requires i < j && After(packet, index, i) == After(packet, index, j)
    requires GoesOn(packet, After(packet, index, j))
    ensures GoesOn(packet, After(packet, index, m))
    decreases m
  {
    hide GoesOn, After;
    if m <= j {
      GoesOnBefore(packet, index, m, j);
    } else {
      RoundAndRound(packet, index, i, j, m - (j - i));
      AfterSum(packet, index, i, m - j);
      AfterSum(packet, index, j, m - j);
    }
  }

  lemma WithinPacket(packet: string, index: int)
    requires GoesOn(packet, index)
    ensures 0 <= index < |packet|
  {
  }

  /** The walk never stops exactly if it has not stopped after as many steps as the packet has characters. */
  lemma EndlessExactly(packet: string, index: int)
    ensures Walk(packet, index) == ENDLESS <==> forall n: nat :: WalkWithin(packet, index, n) == ENDLESS
  {
    hide GoesOn, After, WalkWithin;
    assert Walk(packet, index) == WalkWithin(packet, index, |packet|);
    if Walk(packet, index) == ENDLESS {
      var size := |packet|;
      EndlessWithin(packet, index, size);
      var trail := Trail(packet, index, size);
      forall k | 0 <= k < |trail| ensures 0 <= trail[k] < size {
        GoesOnBefore(packet, index, k, size);
        WithinPacket(packet, trail[k]);
      }
      var i, j := Pigeonhole(trail, size);
      GoesOnBefore(packet, index, j, size);
      forall n: nat ensures WalkWithin(packet, index, n) == ENDLESS {
        RoundAndRound(packet, index, i, j, n);
        EndlessWithin(packet, index, n);
      }
    }
  }

  /** Without a minus sign every step leads forward, so the walk stops. */
  lemma {:induction false} ForwardStops(packet: string, index: int, n: nat)
    requires NoMinus(packet) && |packet| <= index + n
    ensures WalkWithin(packet, index, n) != ENDLESS
    decreases n
  {
    if n > 0 && GoesOn(packet, index) { ForwardStops(packet, NextIndex(packet, index), n - 1); }
  }

  /** A structure of another type whose length column reads -1 holds the walk up for ever. */
  lemma MinusOneStays(packet: string, index: int)
    requires GoesOn(packet, index) && At(packet, index) == -1
    ensures NextIndex(packet, index) == index && Walk(packet, index) == ENDLESS
  {
    StaysWithin(packet, index, |packet|);
  }

  lemma {:induction false} StaysWithin(packet: string, index: int, n: nat)
    requires GoesOn(packet, index) && At(packet, index) == -1
    ensures WalkWithin(packet, index, n) == ENDLESS
    decreases n
  {
    if n > 0 { StaysWithin(packet, index, n - 1); }
  }

  lemma MinusOneColumn()
    ensures MyStoi("-1") == -1
  {
    assert "-1"[1..] == "1" && "1"[1..] == "";
    assert HexDigit('1') == 1;
  }

  /** A packet on which the decoder never returns. */
  lemma EndlessPacket()
    ensures DecodeText(seq(START, _ => '0') + "-1 00") == Endless
  {
    hide HexPrefix;
    var packet := seq(START, _ => '0') + "-1 00";
    MinusOneColumn();
    assert Column(packet, START) == "-1";
    assert Column(packet, START + 3) == "00";
    assert At(packet, START) == -1;
    assert At(packet, START + 3) == 0 by { ZeroColumn(); }
    MinusOneStays(packet, START);
  }

  lemma ZeroColumn()
    ensures MyStoi("00") == 0
  {
    assert "00"[1..] == "0" && "0"[1..] == "";
    assert HexDigit('0') == 0;
  }

  // ----- the beacon

  /** The beacon data in the columns from `index` on, behind the length and type of their structure. */
  function ReadColumns(packet: string, index: nat): (r: Outcome)
    ensures r != Endless
  {
    if index + 12 + 47 > |packet| then (if index + 9 > |packet| then Rejected else Overrun)
    else if index + 75 > |packet| then Rejected
    else Parsed(Fields(
      256 * At(packet, index) + At(packet, index + 3),
      256 * At(packet, index + 6) + At(packet, index + 9),
      DropSpaces(packet[index + 12..index + 60]),
      256 * At(packet, index + 60) + At(packet, index + 63),
      256 * At(packet, index + 66) + At(packet, index + 69),
      At(packet, index + 72) - 256), At(packet, index + 75) - 256)
  }

  function DropSpaces(s: string): (t: string)
  {
    if s == "" then "" else if s[0] != ' ' then [s[0]] + DropSpaces(s[1..]) else DropSpaces(s[1..])
  }

  lemma {:induction false} DropSpacesConcat(a: string, b: string)
    ensures DropSpaces(a + b) == DropSpaces(a) + DropSpaces(b)
  {
    if a == "" {
      assert a + b == b;
    } else {
      assert (a + b)[1..] == a[1..] + b;
      DropSpacesConcat(a[1..], b);
    }
  }

  const START := 2 + HCIDUMP_PREFIX * 3 + BADDR_SIZE * 3 + 3

  /** The decoder as a function of the packet. */
  function DecodeText(packet: string): Outcome {
    var end := Walk(packet, START);
    if end == THROWN then Rejected else if end == ENDLESS then Endless else ReadColumns(packet, end + 6)
  }

  /** `mystoi(packet.substr(index, 2), 16)`, which throws beyond the end and for a negative index. */
  method ReadColumn(packet: string, index: int) returns (thrown: bool, value: int)
    ensures thrown <==> !(0 <= index <= |packet|)
    ensures !thrown ==> value == At(packet, index)
  {
    if !(0 <= index <= |packet|) { return true, 0; }
    return false, MyStoi(Column(packet, index));
  }

  /** Two adjacent columns, the higher one first. */
  method ReadWord(packet: string, index: nat) returns (thrown: bool, value: int)
    ensures thrown <==> index + 3 > |packet|
    ensures !thrown ==> value == 256 * At(packet, index) + At(packet, index + 3)
  {
    value := 0;
    var high, low;
    thrown, high := ReadColumn(packet, index);
    if thrown { return; }
    thrown, low := ReadColumn(packet, index + 3);
    if thrown { return; }
    value := 256 * high + low;
  }

  /** The length and the type of the AD structure at `index`. */
  method ReadHeader(packet: string, index: int) returns (thrown: bool, length: int, kind: int)
    ensures thrown <==> !Readable(packet, index)
    ensures !thrown ==> length == At(packet, index) && kind == At(packet, index + 3)
  {
    kind := 0;
    thrown, length := ReadColumn(packet, index);
    if thrown { return; }
    thrown, kind := ReadColumn(packet, index + 3);
  }

  /** Walks to the first AD structure of type 0xFF, if the walk ends. */
  method FindManufacturerData(packet: string, start: nat) returns (index: int)
    requires Walk(packet, start) != ENDLESS
    ensures index == Walk(packet, start)
  {
    hide At;
    index := start;
    var size := |packet|;
    var thrown, length, kind := ReadHeader(packet, index);
    if thrown { return THROWN; }
    ghost var left: nat := |packet|;
    while kind != 0xFF && index < size - 1
      invariant Readable(packet, index) && length == At(packet, index) && kind == At(packet, index + 3)
      invariant ENDLESS != Walk(packet, start) == WalkWithin(packet, index, left)
      decreases left
    {
      index := index + 3 * (length + 1);
      left := left - 1;
      thrown, length, kind := ReadHeader(packet, index);
      if thrown { return THROWN; }
    }
  }

  /** The whole decoder; the source returns exactly if the walk over the AD structures ends. */
  method ParseHCIDump(packet: string) returns (r: Outcome)
    requires DecodeText(packet) != Endless
    ensures r == DecodeText(packet)
  {
    var index := 2 + HCIDUMP_PREFIX * 3;
    index := index + BADDR_SIZE * 3;
    index := index + 3;
    index := FindManufacturerData(packet, index);
    if index == THROWN || index >= |packet| { return Rejected; }
    r := ReadBeacon(packet, index + 6);
  }

  /** A beacon comes out exactly if the walk ends at a structure behind whose start the packet has 81 more
      characters; a packet that ends before the first structure's type is rejected. */
  lemma ParsedExactly(packet: string)
    ensures DecodeText(packet).Parsed? <==> Walk(packet, START) >= 0 && Walk(packet, START) + 81 <= |packet|
    ensures |packet| < START + 3 ==> DecodeText(packet) == Rejected
  {
  }

  lemma EndlessWalk(packet: string)
    ensures DecodeText(packet) == Endless <==> Walk(packet, START) == ENDLESS
    ensures NoMinus(packet) ==> DecodeText(packet) != Endless
  {
    if NoMinus(packet) { ForwardStops(packet, START, |packet|); }
  }

  /** Reads the beacon behind the length and type columns. */
  method ReadBeacon(packet: string, index: nat) returns (r: Outcome)
    ensures r == ReadColumns(packet, index)
  {
    hide At;
    var thrown, manufacturer, code, major, minor, power, rssi;
    thrown, manufacturer := ReadWord(packet, index);
    if thrown { return Rejected; }
    thrown, code := ReadWord(packet, index + 6);
    if thrown { return Rejected; }
    if index + 12 + 3 * UUID_SIZE - 1 > |packet| { return Overrun; }
    var uuid := ReadUuid(packet, index + 12);
    thrown, major := ReadWord(packet, index + 60);
    if thrown { return Rejected; }
    thrown, minor := ReadWord(packet, index + 66);
    if thrown { return Rejected; }
    thrown, power := ReadColumn(packet, index + 72);
    if thrown { return Rejected; }
    thrown, rssi := ReadColumn(packet, index + 75);
    if thrown { return Rejected; }
    return Parsed(Fields(manufacturer, code, uuid, major, minor, power - 256), rssi - 256);
  }

  /** Collects the digits of the uuid. Reading at the very end of the packet gives a null character. */
  method ReadUuid(packet: string, index: nat) returns (uuid: string)
    requires index + 3 * UUID_SIZE - 1 <= |packet|
    ensures index + 3 * UUID_SIZE <= |packet| ==> uuid == DropSpaces(packet[index..index + 3 * UUID_SIZE])
  {
    uuid := "";
    var n := 0;
    while n < UUID_SIZE * 3
      invariant 0 <= n <= UUID_SIZE * 3
      invariant index + n <= |packet| ==> uuid == DropSpaces(packet[index..index + n])
    {
      var c := if index + n < |packet| then packet[index + n] else '\0';
      if index + n < |packet| {
        assert packet[index..index + n + 1] == packet[index..index + n] + [c];
        DropSpacesConcat(packet[index..index + n], [c]);
      }
      if c != ' ' {
        uuid := uuid + [c];
      }
      n := n + 1;
    }
  }
}
