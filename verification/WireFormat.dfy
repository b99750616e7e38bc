/** The big-endian encoding of src/ByteBuffer.cpp as functions of octet strings, and the layouts that
    src/Beacon.cpp and src/SocketPublisher.cpp write with it. */
module WireFormat {
  import opened CArith
  import opened SeqFacts

  type Octets = seq<uint8>

  // ----- the elements

  function Int4(v: uint32): (s: Octets)
    ensures |s| == 4
  {
    [v / 0x100_0000, v / 0x1_0000 % 0x100, v / 0x100 % 0x100, v % 0x100]
  }

  /** A 64-bit value, the high word first. */
  function Long8(v: int64): (s: Octets)
    ensures |s| == 8
  {
    Int4(ToUint32(v / 0x1_0000_0000)) + Int4(ToUint32(v))
  }

  function Text(s: Octets): Octets
    requires |s| < 0x1_0000_0000
  {
    Int4(|s|) + s
  }

  /** Reading past the end gives zeros. */
  function ByteAt(buf: Octets, i: nat): uint8 {
    if i < |buf| then buf[i] else 0
  }

  function IntAt(buf: Octets, i: nat): int32 {
    ToInt32(0x100_0000 * ByteAt(buf, i) + 0x1_0000 * ByteAt(buf, i + 1)
            + 0x100 * ByteAt(buf, i + 2) + ByteAt(buf, i + 3))
  }

  function LongAt(buf: Octets, i: nat): int64 {
    ToInt64(0x1_0000_0000 * ToUint32(IntAt(buf, i)) + ToUint32(IntAt(buf, i + 4)))
  }

  /** `n` octets from position `i` on. */
  function Bytes(buf: Octets, i: nat, n: nat): (s: Octets)
    ensures |s| == n
  {
    if n == 0 then [] else Bytes(buf, i, n - 1) + [ByteAt(buf, i + n - 1)]
  }

  lemma {:induction false} BytesStand(buf: Octets, i: nat, s: Octets)
    requires StandsAt(buf, i, s)
    ensures Bytes(buf, i, |s|) == s
  {
    if s != [] {
      var n := |s|;
      SliceSlice(buf, i, i + n, 0, n - 1);
      BytesStand(buf, i, s[..n - 1]);
      assert buf[i + n - 1] == buf[i..i + n][n - 1];
      assert s == s[..n - 1] + [s[n - 1]];
    }
  }

  /** A C string ends at its first null character. */
  function UntilNul(s: Octets): (t: Octets)
    ensures t <= s
  {
    if s == [] || s[0] == 0 then [] else [s[0]] + UntilNul(s[1..])
  }

  predicate NulFree(s: Octets) {
    forall i :: 0 <= i < |s| ==> s[i] != 0
  }

  lemma {:induction false} UntilNulExact(s: Octets)
    ensures UntilNul(s) == s <==> NulFree(s)
  {
    if s != [] {
      UntilNulExact(s[1..]);
      if s[0] != 0 {
        assert UntilNul(s) == s <==> UntilNul(s[1..]) == s[1..];
        assert NulFree(s) <==> NulFree(s[1..]) by {
          if NulFree(s[1..]) {
            forall i | 0 <= i < |s| ensures s[i] != 0 { if i > 0 { assert s[1..][i - 1] != 0; } }
          }
        }
      }
    }
  }

  /** The C string has no null character, and is followed by one if it is not the whole string. */
  lemma {:induction false} UntilNulCuts(s: Octets)
    ensures var t := UntilNul(s); NulFree(t) && t <= s && (|t| < |s| ==> s[|t|] == 0)
  {
    if s != [] && s[0] != 0 { UntilNulCuts(s[1..]); }
  }

  function TextLength(buf: Octets, i: nat): uint32 {
    ToUint32(IntAt(buf, i))
  }

  function TextAt(buf: Octets, i: nat): Octets {
    UntilNul(Bytes(buf, i + 4, TextLength(buf, i)))
  }

  /** The octets `s` stand at position `i`. */
  ghost predicate StandsAt(buf: Octets, i: nat, s: Octets) {
    i + |s| <= |buf| && buf[i..i + |s|] == s
  }

  lemma StandsInConcat(a: Octets, s: Octets, b: Octets)
    ensures StandsAt(a + s + b, |a|, s)
  {
    ConcatParts(a, s);
    ConcatParts(a + s, b);
    assert (a + s + b)[|a|..|a| + |s|] == ((a + s + b)[..|a + s|])[|a|..];
  }

  lemma StandsParts(buf: Octets, i: nat, s: Octets, t: Octets)
    ensures StandsAt(buf, i, s + t) <==> StandsAt(buf, i, s) && StandsAt(buf, i + |s|, t)
  {
    if i + |s + t| <= |buf| {
      SliceSlice(buf, i, i + |s + t|, 0, |s|);
      SliceSlice(buf, i, i + |s + t|, |s|, |s + t|);
      ConcatParts(s, t);
      assert buf[i..i + |s + t|] == buf[i..i + |s|] + buf[i + |s|..i + |s| + |t|];
    }
  }

  lemma WordOfOctets(v: uint32)
    ensures var s := Int4(v);
      0x100_0000 * (s[0] as int) + 0x1_0000 * (s[1] as int) + 0x100 * (s[2] as int) + s[3] == v
  {
    var a, b, c := v / 0x100, v / 0x1_0000, v / 0x100_0000;
    assert v == 0x100 * a + v % 0x100;
    assert b == a / 0x100 && a == 0x100 * b + a % 0x100;
    assert c == b / 0x100 && b == 0x100 * c + b % 0x100;
  }

  lemma SignedWord(v: int)
    ensures ToInt32(ToUint32(v)) == ToInt32(v)
    ensures ToUint32(ToInt32(v)) == ToUint32(v)
  {
  }

  lemma IntReads(buf: Octets, i: nat, v: int)
    requires StandsAt(buf, i, Int4(ToUint32(v)))
    ensures IntAt(buf, i) == ToInt32(v) && ToUint32(IntAt(buf, i)) == ToUint32(v)
  {
    var s := Int4(ToUint32(v));
    assert buf[i] == buf[i..i + 4][0] == s[0] && buf[i + 1] == buf[i..i + 4][1] == s[1];
    assert buf[i + 2] == buf[i..i + 4][2] == s[2] && buf[i + 3] == buf[i..i + 4][3] == s[3];
    WordOfOctets(ToUint32(v));
    SignedWord(v);
  }

  lemma LongReads(buf: Octets, i: nat, v: int64)
    requires StandsAt(buf, i, Long8(v))
    ensures LongAt(buf, i) == v
    ensures IntAt(buf, i) == v / 0x1_0000_0000
  {
    StandsParts(buf, i, Int4(ToUint32(v / 0x1_0000_0000)), Int4(ToUint32(v)));
    IntReads(buf, i, v / 0x1_0000_0000);
    IntReads(buf, i + 4, v);
    LongOfWords(v);
  }

  lemma LongOfWords(v: int64)
    ensures ToInt64(0x1_0000_0000 * ToUint32(v / 0x1_0000_0000) + ToUint32(v)) == v
    ensures ToInt32(v / 0x1_0000_0000) == v / 0x1_0000_0000
  {
    var h := v / 0x1_0000_0000;
    assert v == 0x1_0000_0000 * h + ToUint32(v);
    if h < 0 {
      assert ToUint32(h) == h + 0x1_0000_0000;
    } else {
      assert ToUint32(h) == h;
    }
  }

  lemma TextReads(buf: Octets, i: nat, s: Octets)
    requires |s| < 0x1_0000_0000 && StandsAt(buf, i, Text(s))
    ensures TextLength(buf, i) == |s| && TextAt(buf, i) == UntilNul(s)
  {
    hide StandsAt, IntAt, Int4, UntilNul;
    StandsParts(buf, i, Int4(|s|), s);
    assert ToUint32(|s|) == |s|;
    IntReads(buf, i, |s|);
    BytesStand(buf, i + 4, s);
  }

  // ----- beacon messages

  const VERSION := 5

  /** A beacon as `toByteMsg` and `fromByteMsg` see it. */
  datatype Beacon = Beacon(scannerID: Octets, uuid: Octets, sequenceNo: int32, code: int32, manufacturer: int32,
    major: int32, minor: int32, power: int32, calibratedPower: int32, rssi: int32, messageType: int32, time: int64)
  {
    predicate Valid() {
      |scannerID| < 0x1_0000_0000 && |uuid| < 0x1_0000_0000
    }

    function Strings(): Octets
      requires Valid()
    {
      Int4(VERSION) + Text(scannerID) + Text(uuid)
    }

    function Numbers(): (s: Octets)
      ensures |s| == 28
    {
      Int4(ToUint32(code)) + Int4(ToUint32(manufacturer)) + Int4(ToUint32(major)) + Int4(ToUint32(minor))
      + Int4(ToUint32(power)) + Int4(ToUint32(calibratedPower)) + Int4(ToUint32(rssi))
    }

    function Tail(): (s: Octets)
      ensures |s| == 12
    {
      Long8(time) + Int4(ToUint32(messageType))
    }

    function Message(): Octets
      requires Valid()
    {
      Strings() + Numbers() + Tail()
    }
  }

  /** What `fromByteMsg` reads: after the seven numbers it expects the message type, a heartbeat flag that
      it drops, and the time. */
  function DecodeBeacon(msg: Octets): Beacon {
    var p := 4 + 4 + TextLength(msg, 4);
    var q := p + 4 + TextLength(msg, p);
    Beacon(TextAt(msg, 4), TextAt(msg, p), 0, IntAt(msg, q), IntAt(msg, q + 4), IntAt(msg, q + 8), IntAt(msg, q + 12),
      IntAt(msg, q + 16), IntAt(msg, q + 20), IntAt(msg, q + 24), IntAt(msg, q + 28), LongAt(msg, q + 36))
  }

  /** A reader that takes the tail as it was written, time first. */
  function DecodeInWriterOrder(msg: Octets): Beacon {
    var p := 4 + 4 + TextLength(msg, 4);
    var q := p + 4 + TextLength(msg, p);
    DecodeBeacon(msg).(time := LongAt(msg, q + 28), messageType := IntAt(msg, q + 36))
  }

  lemma StringsRead(b: Beacon, rest: Octets)
    requires b.Valid()
    ensures var msg := b.Strings() + rest;
      var p := 4 + 4 + TextLength(msg, 4);
      && p == 8 + |b.scannerID| && p + 4 + TextLength(msg, p) == |b.Strings()|
      && TextAt(msg, 4) == UntilNul(b.scannerID) && TextAt(msg, p) == UntilNul(b.uuid)
  {
    var msg := b.Strings() + rest;
    ConcatParts(b.Strings(), rest);
    assert StandsAt(msg, 0, b.Strings());
    StandsParts(msg, 0, Int4(VERSION) + Text(b.scannerID), Text(b.uuid));
    StandsParts(msg, 0, Int4(VERSION), Text(b.scannerID));
    TextReads(msg, 4, b.scannerID);
    TextReads(msg, 8 + |b.scannerID|, b.uuid);
  }

  lemma NumbersRead(b: Beacon, msg: Octets, q: nat)
    requires StandsAt(msg, q, b.Numbers())
    ensures IntAt(msg, q) == b.code && IntAt(msg, q + 4) == b.manufacturer && IntAt(msg, q + 8) == b.major
    ensures IntAt(msg, q + 12) == b.minor && IntAt(msg, q + 16) == b.power
    ensures IntAt(msg, q + 20) == b.calibratedPower && IntAt(msg, q + 24) == b.rssi
  {
    hide Int4, ToUint32, ToInt32, IntAt, StandsAt;
    var n1 := Int4(ToUint32(b.code));
    var n2 := n1 + Int4(ToUint32(b.manufacturer));
    var n3 := n2 + Int4(ToUint32(b.major));
    var n4 := n3 + Int4(ToUint32(b.minor));
    var n5 := n4 + Int4(ToUint32(b.power));
    var n6 := n5 + Int4(ToUint32(b.calibratedPower));
    StandsParts(msg, q, n6, Int4(ToUint32(b.rssi)));
    StandsParts(msg, q, n5, Int4(ToUint32(b.calibratedPower)));
    StandsParts(msg, q, n4, Int4(ToUint32(b.power)));
    StandsParts(msg, q, n3, Int4(ToUint32(b.minor)));
    StandsParts(msg, q, n2, Int4(ToUint32(b.major)));
    StandsParts(msg, q, n1, Int4(ToUint32(b.manufacturer)));
    IntReads(msg, q, b.code);
    IntReads(msg, q + 4, b.manufacturer);
    IntReads(msg, q + 8, b.major);
    IntReads(msg, q + 12, b.minor);
    IntReads(msg, q + 16, b.power);
    IntReads(msg, q + 20, b.calibratedPower);
    IntReads(msg, q + 24, b.rssi);
  }

  /** The twelve octets of the tail, read in either order; past them there are only zeros. */
  lemma TailReads(b: Beacon, msg: Octets, t: nat)
    requires StandsAt(msg, t, b.Tail()) && |msg| == t + 12
    ensures LongAt(msg, t) == b.time && IntAt(msg, t + 8) == b.messageType
    ensures IntAt(msg, t) == b.time / 0x1_0000_0000
    ensures LongAt(msg, t + 8) == b.messageType * 0x1_0000_0000
  {
    StandsParts(msg, t, Long8(b.time), Int4(ToUint32(b.messageType)));
    LongReads(msg, t, b.time);
    IntReads(msg, t + 8, b.messageType);
    assert IntAt(msg, t + 12) == 0;
    ShiftedWord(b.messageType);
  }

  lemma ShiftedWord(v: int32)
    ensures ToInt64(0x1_0000_0000 * ToUint32(v) + ToUint32(0)) == v * 0x1_0000_0000
  {
    assert ToUint32(v) == if v < 0 then v + 0x1_0000_0000 else v;
  }

  lemma MessageRead(b: Beacon)
    requires b.Valid()
    ensures var msg := b.Message();
      && DecodeBeacon(msg) == b.(scannerID := UntilNul(b.scannerID), uuid := UntilNul(b.uuid), sequenceNo := 0,
                                 messageType := b.time / 0x1_0000_0000, time := b.messageType * 0x1_0000_0000)
      && DecodeInWriterOrder(msg) == b.(scannerID := UntilNul(b.scannerID), uuid := UntilNul(b.uuid), sequenceNo := 0)
  {
    hide Int4, ToUint32, ToInt32, IntAt, LongAt, TextAt, TextLength, Beacon.Strings, Beacon.Numbers, Beacon.Tail;
    var msg, q := b.Message(), |b.Strings()|;
    ConcatAssoc(b.Strings(), b.Numbers(), b.Tail());
    StringsRead(b, b.Numbers() + b.Tail());
    StandsInConcat(b.Strings(), b.Numbers(), b.Tail());
    StandsInConcat(b.Strings() + b.Numbers(), b.Tail(), []);
    assert b.Strings() + b.Numbers() + b.Tail() + [] == msg;
    NumbersRead(b, msg, q);
    TailReads(b, msg, q + 28);
  }

  /** The layout of a message: the version, two texts, seven numbers, the time and the message type, all big-endian,
      and nothing else. */
  lemma MessageLayout(b: Beacon)
    requires b.Valid()
    ensures var msg, p := b.Message(), 8 + |b.scannerID|;
      var q := p + 4 + |b.uuid|;
      && |msg| == q + 40
      && IntAt(msg, 0) == 5
      && ToUint32(IntAt(msg, 4)) == |b.scannerID| && msg[8..p] == b.scannerID
      && ToUint32(IntAt(msg, p)) == |b.uuid| && msg[p + 4..q] == b.uuid
      && IntAt(msg, q) == b.code && IntAt(msg, q + 4) == b.manufacturer && IntAt(msg, q + 8) == b.major
      && IntAt(msg, q + 12) == b.minor && IntAt(msg, q + 16) == b.power && IntAt(msg, q + 20) == b.calibratedPower
      && IntAt(msg, q + 24) == b.rssi && LongAt(msg, q + 28) == b.time && IntAt(msg, q + 36) == b.messageType
  {
    hide Int4, ToUint32, ToInt32, IntAt, LongAt, TextAt, TextLength, Beacon.Numbers, Beacon.Tail;
    var msg, q := b.Message(), |b.Strings()|;
    ConcatAssoc(b.Strings(), b.Numbers(), b.Tail());
    StandsInConcat(b.Strings(), b.Numbers(), b.Tail());
    StandsInConcat(b.Strings() + b.Numbers(), b.Tail(), []);
    assert b.Strings() + b.Numbers() + b.Tail() + [] == msg;
    StringsStand(b, b.Numbers() + b.Tail());
    NumbersRead(b, msg, q);
    TailSize(b);
    TailReads(b, msg, q + 28);
  }

  lemma TailSize(b: Beacon)
    ensures |b.Numbers()| == 28 && |b.Tail()| == 12
  {
  }

  lemma StringsStand(b: Beacon, rest: Octets)
    requires b.Valid()
    ensures var msg, p := b.Strings() + rest, 8 + |b.scannerID|;
      var q := p + 4 + |b.uuid|;
      && |b.Strings()| == q && IntAt(msg, 0) == 5
      && ToUint32(IntAt(msg, 4)) == |b.scannerID| && msg[8..p] == b.scannerID
      && ToUint32(IntAt(msg, p)) == |b.uuid| && msg[p + 4..q] == b.uuid
  {
    hide ToUint32, ToInt32, IntAt, Int4;
    var msg, p := b.Strings() + rest, 8 + |b.scannerID|;
    ConcatParts(b.Strings(), rest);
    assert StandsAt(msg, 0, b.Strings());
    StandsParts(msg, 0, Int4(VERSION) + Text(b.scannerID), Text(b.uuid));
    StandsParts(msg, 0, Int4(VERSION), Text(b.scannerID));
    assert ToUint32(VERSION) == VERSION && ToInt32(VERSION) == VERSION by { SmallWord(VERSION); }
    IntReads(msg, 0, VERSION);
    TextStands(msg, 4, b.scannerID);
    TextStands(msg, p, b.uuid);
  }

  lemma SmallWord(v: int)
    requires 0 <= v < 0x8000_0000
    ensures ToUint32(v) == v && ToInt32(v) == v
  {
  }

  lemma TextStands(buf: Octets, i: nat, s: Octets)
    requires |s| < 0x1_0000_0000 && StandsAt(buf, i, Text(s))
    ensures ToUint32(IntAt(buf, i)) == |s| && i + 4 + |s| <= |buf| && buf[i + 4..i + 4 + |s|] == s
  {
    hide IntAt, Int4;
    StandsParts(buf, i, Int4(|s|), s);
    assert ToUint32(|s|) == |s|;
    IntReads(buf, i, |s|);
  }

  /** Four octets, the highest first. */
  lemma IntIsBigEndian(v: uint32)
    ensures Int4(v) == [v / 0x100_0000, v / 0x1_0000 % 0x100, v / 0x100 % 0x100, v % 0x100]
    ensures IntAt(Int4(v), 0) == ToInt32(v)
  {
    hide IntAt;
    assert StandsAt(Int4(v), 0, Int4(v));
    assert ToUint32(v) == v;
    IntReads(Int4(v), 0, v);
  }

  /** The round trip through the message returns the beacon exactly when its strings contain no null
      character, it was not numbered, and its time happens to be the message type shifted by 32 bits. */
  lemma RoundTripExact(b: Beacon)
    requires b.Valid()
    ensures DecodeBeacon(b.Message()) == b <==>
      NulFree(b.scannerID) && NulFree(b.uuid) && b.sequenceNo == 0 && b.time == b.messageType * 0x1_0000_0000
  {
    MessageRead(b);
    UntilNulExact(b.scannerID);
    UntilNulExact(b.uuid);
  }

  // ----- property lists

  type Entry = (Octets, Octets)

  predicate Fits(es: seq<Entry>) {
    |es| < 0x8000_0000 && forall i :: 0 <= i < |es| ==> |es[i].0| < 0x1_0000_0000 && |es[i].1| < 0x1_0000_0000
  }

  /** Keys and values in turn. */
  function Pairs(es: seq<Entry>): (s: Octets)
    requires Fits(es)
    decreases |es|
  {
    if es == [] then [] else Pairs(es[..|es| - 1]) + (Text(es[|es| - 1].0) + Text(es[|es| - 1].1))
  }

  function Properties(es: seq<Entry>): Octets
    requires Fits(es)
  {
    Int4(|es|) + Pairs(es)
  }

  /** The frame of a property list: destination, length of the rest, and the list. */
  function PropertiesFrame(destination: Octets, es: seq<Entry>): Octets
    requires |destination| < 0x1_0000_0000 && Fits(es) && |Properties(es)| < 0x1_0000_0000
  {
    Text(destination) + Int4(|Properties(es)|) + Properties(es)
  }

  /** The entries read one after the other from position `i` on, and the position behind them. */
  function PairsAt(buf: Octets, i: nat, n: nat): (r: (seq<Entry>, nat)) {
    if n == 0 then ([], i)
    else
      var (es, p) := PairsAt(buf, i, n - 1);
      var q := p + 4 + TextLength(buf, p);
      (es + [(TextAt(buf, p), TextAt(buf, q))], q + 4 + TextLength(buf, q))
  }

  function Cut(es: seq<Entry>): (t: seq<Entry>)
    ensures |t| == |es|
  {
    if es == [] then [] else Cut(es[..|es| - 1]) + [(UntilNul(es[|es| - 1].0), UntilNul(es[|es| - 1].1))]
  }

  predicate AllNulFree(es: seq<Entry>) {
    forall i :: 0 <= i < |es| ==> NulFree(es[i].0) && NulFree(es[i].1)
  }

  lemma {:induction false} CutExact(es: seq<Entry>)
    ensures Cut(es) == es <==> AllNulFree(es)
  {
    if es != [] {
      var front, last := es[..|es| - 1], es[|es| - 1];
      CutExact(front);
      UntilNulExact(last.0);
      UntilNulExact(last.1);
      assert es == front + [last];
      if Cut(es) == es {
        assert Cut(es)[..|front|] == Cut(front) && Cut(es)[|front|] == last;
      }
    }
  }

  lemma PairsUnfold(es: seq<Entry>)
    requires Fits(es) && es != []
    ensures var front, last := es[..|es| - 1], es[|es| - 1];
      && Fits(front)
      && Pairs(es) == Pairs(front) + (Text(last.0) + Text(last.1))
      && Cut(es) == Cut(front) + [(UntilNul(last.0), UntilNul(last.1))]
  {
  }

  lemma PairsAtUnfold(buf: Octets, i: nat, n: nat)
    requires n > 0
    ensures var (es, p) := PairsAt(buf, i, n - 1);
      var q := p + 4 + TextLength(buf, p);
      PairsAt(buf, i, n) == (es + [(TextAt(buf, p), TextAt(buf, q))], q + 4 + TextLength(buf, q))
  {
  }

  lemma {:induction false} PairsRead(buf: Octets, i: nat, es: seq<Entry>)
    requires Fits(es) && StandsAt(buf, i, Pairs(es))
    ensures PairsAt(buf, i, |es|) == (Cut(es), i + |Pairs(es)|)
    decreases |es|
  {
    if es != [] {
      hide PairsAt, Pairs, Cut, StandsAt, TextAt, TextLength, UntilNul, Text;
      var front, last := es[..|es| - 1], es[|es| - 1];
      var p := i + |Pairs(front)|;
      PairsUnfold(es);
      PairsAtUnfold(buf, i, |es|);
      StandsParts(buf, i, Pairs(front), Text(last.0) + Text(last.1));
      PairsRead(buf, i, front);
      PairReads(buf, p, last.0, last.1);
    }
  }

  lemma PairReads(buf: Octets, p: nat, key: Octets, value: Octets)
    requires |key| < 0x1_0000_0000 && |value| < 0x1_0000_0000
    requires StandsAt(buf, p, Text(key) + Text(value))
    ensures TextAt(buf, p) == UntilNul(key)
    ensures var q := p + 4 + TextLength(buf, p);
      TextAt(buf, q) == UntilNul(value) && q + 4 + TextLength(buf, q) == p + |Text(key) + Text(value)|
  {
    hide StandsAt, TextAt, TextLength, UntilNul;
    StandsParts(buf, p, Text(key), Text(value));
    TextReads(buf, p, key);
    TextReads(buf, p + |Text(key)|, value);
  }

  /** Wherever a property list stands, its count and its entries are read back, and no octet more. */
  lemma PropertiesRead(buf: Octets, i: nat, es: seq<Entry>)
    requires Fits(es) && StandsAt(buf, i, Properties(es))
    ensures IntAt(buf, i) == |es| && PairsAt(buf, i + 4, |es|) == (Cut(es), i + |Properties(es)|)
  {
    hide IntAt, Int4, Pairs, PairsAt, Cut;
    StandsParts(buf, i, Int4(|es|), Pairs(es));
    assert ToUint32(|es|) == |es|;
    IntReads(buf, i, |es|);
    PairsRead(buf, i + 4, es);
  }

  /** Reading the frame back: the destination, a length that counts exactly the octets behind it, and the
      entries, with nothing left over. */
  lemma FrameReads(destination: Octets, es: seq<Entry>)
    requires |destination| < 0x1_0000_0000 && Fits(es) && |Properties(es)| < 0x1_0000_0000
    ensures var frame := PropertiesFrame(destination, es);
      var p := 4 + TextLength(frame, 0);
      && TextAt(frame, 0) == UntilNul(destination) && p == |Text(destination)|
      && ToUint32(IntAt(frame, p)) == |frame| - (p + 4)
      && IntAt(frame, p + 4) == |es|
      && PairsAt(frame, p + 8, |es|) == (Cut(es), |frame|)
  {
    hide TextAt, TextLength, UntilNul, IntAt, Int4;
    var frame := PropertiesFrame(destination, es);
    var d, n, body := Text(destination), Int4(|Properties(es)|), Properties(es);
    assert StandsAt(frame, 0, frame);
    StandsParts(frame, 0, d + n, body);
    StandsParts(frame, 0, d, n);
    TextReads(frame, 0, destination);
    assert ToUint32(|body|) == |body|;
    IntReads(frame, |d|, |body|);
    PropertiesRead(frame, |d + n|, es);
  }

  /** The list comes back unchanged exactly when nothing in it contains a null character. */
  lemma FrameRoundTrip(destination: Octets, es: seq<Entry>)
    requires |destination| < 0x1_0000_0000 && Fits(es) && |Properties(es)| < 0x1_0000_0000
    ensures var frame := PropertiesFrame(destination, es);
      var p := 4 + TextLength(frame, 0);
      ((TextAt(frame, 0), PairsAt(frame, p + 8, |es|).0) == (destination, es))
      <==> (NulFree(destination) && AllNulFree(es))
  {
    FrameReads(destination, es);
    UntilNulExact(destination);
    CutExact(es);
  }

  /** The frame of a beacon message: destination, length of the message, message. */
  lemma MessageFrameReads(destination: Octets, message: Octets)
    requires |destination| < 0x1_0000_0000 && |message| < 0x1_0000_0000
    ensures var frame := Text(destination) + Int4(|message|) + message;
      var p := 4 + TextLength(frame, 0);
      && TextAt(frame, 0) == UntilNul(destination) && p == |Text(destination)|
      && ToUint32(IntAt(frame, p)) == |message| && frame[p + 4..] == message
  {
    hide TextAt, TextLength, UntilNul, IntAt, Int4, Text;
    var d, n := Text(destination), Int4(|message|);
    var frame := d + n + message;
    assert StandsAt(frame, 0, frame);
    StandsParts(frame, 0, d + n, message);
    StandsParts(frame, 0, d, n);
    TextReads(frame, 0, destination);
    assert ToUint32(|message|) == |message|;
    IntReads(frame, |d|, |message|);
    ConcatParts(d + n, message);
    TextSize(destination);
  }

  lemma TextSize(s: Octets)
    requires |s| < 0x1_0000_0000
    ensures |Text(s)| == 4 + |s|
  {
  }
}
