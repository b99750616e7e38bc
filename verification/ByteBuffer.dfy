/** The buffer of src/ByteBuffer.h, with its read and write positions, and what src/Beacon.cpp and
    src/SocketPublisher.cpp do with it. */
module ByteBuffer {
  import opened CArith
  import opened SeqFacts
  import opened WireFormat

  /** `vector::resize` to a larger size. */
  function Grown(buf: Octets, size: nat): (b: Octets)
    ensures |b| == if |buf| < size then size else |buf|
  {
    if |buf| < size then buf + Zeros(size - |buf|) else buf
  }

  function Zeros(n: nat): (z: Octets)
    ensures |z| == n
  {
    if n == 0 then [] else Zeros(n - 1) + [0]
  }

  /** The buffer after `s` was written at `pos`. */
  function Overwritten(buf: Octets, pos: nat, s: Octets): (b: Octets)
    ensures |b| == if |buf| < pos + |s| then pos + |s| else |buf|
  {
    var b := Grown(buf, pos + |s|);
    b[..pos] + s + b[pos + |s|..]
  }

  lemma OverwrittenByNothing(buf: Octets, pos: nat)
    requires pos <= |buf|
    ensures Overwritten(buf, pos, []) == buf
  {
    assert buf[..pos] + [] + buf[pos..] == buf;
  }

  lemma OverwrittenAtEnd(buf: Octets, s: Octets)
    ensures Overwritten(buf, |buf|, s) == buf + s
  {
    var b := Grown(buf, |buf| + |s|);
    assert b[..|buf|] == buf && b[|buf| + |s|..] == [];
  }

  lemma OverwrittenInside(a: Octets, old_: Octets, rest: Octets, s: Octets)
    requires |old_| == |s|
    ensures Overwritten(a + old_ + rest, |a|, s) == a + s + rest
  {
    ConcatAssoc(a, old_, rest);
    ConcatParts(a, old_ + rest);
    ConcatParts(a + old_, rest);
  }

  /** Two writes in a row are one. */
  lemma OverwrittenTwice(buf: Octets, pos: nat, s: Octets, t: Octets)
    requires pos <= |buf|
    ensures Overwritten(Overwritten(buf, pos, s), pos + |s|, t) == Overwritten(buf, pos, s + t)
  {
    hide Overwritten;
    var a, b := Overwritten(buf, pos, s), Overwritten(buf, pos, s + t);
    var c := Overwritten(a, pos + |s|, t);
    assert |c| == |b|;
    forall i | 0 <= i < |c| ensures c[i] == b[i] {
      OverwrittenAt(buf, pos, s + t, i);
      OverwrittenAt(a, pos + |s|, t, i);
      if i < pos + |s| || i >= pos + |s| + |t| { OverwrittenAt(buf, pos, s, i); }
    }
  }

  lemma OverwrittenAt(buf: Octets, pos: nat, s: Octets, i: nat)
    requires pos <= |buf| && i < |Overwritten(buf, pos, s)|
    ensures Overwritten(buf, pos, s)[i] == if pos <= i < pos + |s| then s[i - pos] else buf[i]
  {
  }

  class Buffer {
    var buf: Octets
    var rpos: nat
    var wpos: nat

    constructor ()
      ensures buf == [] && rpos == 0 && wpos == 0
    {
      buf, rpos, wpos := [], 0, 0;
    }

    /** A buffer that has consumed an array. */
    constructor FromArray(arr: Octets)
      ensures buf == arr && rpos == 0 && wpos == |arr|
    {
      buf, rpos, wpos := [], 0, 0;
      new;
      PutBytes(arr);
    }

    method Clear()
      modifies this
      ensures buf == [] && rpos == 0 && wpos == 0
    {
      rpos, wpos, buf := 0, 0, [];
    }

    method SetWritePos(w: nat)
      modifies this`wpos
      ensures wpos == w
    {
      wpos := w;
    }

    // ----- writing

    method Write(data: uint8)
      requires wpos <= |buf|
      modifies this`buf, this`wpos
      ensures buf == Overwritten(old(buf), old(wpos), [data]) && wpos == old(wpos) + 1
    {
      if |buf| < wpos + 1 { buf := Grown(buf, wpos + 1); }
      buf := buf[wpos := data];
      wpos := wpos + 1;
    }

    method PutBytes(b: Octets)
      requires wpos <= |buf|
      modifies this`buf, this`wpos
      ensures buf == Overwritten(old(buf), old(wpos), b) && wpos == old(wpos) + |b|
      ensures old(wpos) == |old(buf)| ==> buf == old(buf) + b && wpos == |buf|
    {
      hide Overwritten;
      ghost var start, before := wpos, buf;
      var i := 0;
      OverwrittenByNothing(buf, wpos);
      assert b[..0] == [];
      while i < |b|
        invariant 0 <= i <= |b| && wpos == start + i <= |buf|
        invariant buf == Overwritten(before, start, b[..i])
      {
        OverwrittenTwice(before, start, b[..i], [b[i]]);
        assert b[..i + 1] == b[..i] + [b[i]];
        Write(b[i]);
        i := i + 1;
      }
      assert b[..i] == b;
      if start == |before| { OverwrittenAtEnd(before, b); }
    }

    method PutInt(v: uint32)
      requires wpos <= |buf|
      modifies this`buf, this`wpos
      ensures buf == Overwritten(old(buf), old(wpos), Int4(v)) && wpos == old(wpos) + 4
      ensures old(wpos) == |old(buf)| ==> buf == old(buf) + Int4(v) && wpos == |buf|
    {
      hide Overwritten;
      ghost var b, p, b3, b2, b1, b0 := buf, wpos, v / 0x100_0000, v / 0x1_0000 % 0x100, v / 0x100 % 0x100, v % 0x100;
      Write(v / 0x100_0000);
      Write(v / 0x1_0000 % 0x100);
      OverwrittenTwice(b, p, [b3], [b2]);
      Write(v / 0x100 % 0x100);
      OverwrittenTwice(b, p, [b3, b2], [b1]);
      Write(v % 0x100);
      OverwrittenTwice(b, p, [b3, b2, b1], [b0]);
      assert [b3] + [b2] == [b3, b2] && [b3, b2] + [b1] == [b3, b2, b1] && [b3, b2, b1] + [b0] == Int4(v);
      if p == |b| { OverwrittenAtEnd(b, Int4(v)); }
    }

    /** Eight octets, the highest first. */
    method PutLong(v: int64)
      requires wpos <= |buf|
      modifies this`buf, this`wpos
      ensures buf == Overwritten(old(buf), old(wpos), Long8(v)) && wpos == old(wpos) + 8
      ensures old(wpos) == |old(buf)| ==> buf == old(buf) + Long8(v) && wpos == |buf|
    {
      hide Overwritten;
      ghost var b, p := buf, wpos;
      PutInt(ToUint32(v / 0x1_0000_0000));
      PutInt(ToUint32(v));
      OverwrittenTwice(b, p, Int4(ToUint32(v / 0x1_0000_0000)), Int4(ToUint32(v)));
      if p == |b| { OverwrittenAtEnd(b, Long8(v)); }
    }

    method WriteBytes(str: Octets)
      requires wpos <= |buf| && |str| < 0x1_0000_0000
      modifies this`buf, this`wpos
      ensures buf == Overwritten(old(buf), old(wpos), Text(str)) && wpos == old(wpos) + 4 + |str|
      ensures old(wpos) == |old(buf)| ==> buf == old(buf) + Text(str) && wpos == |buf|
    {
      hide Overwritten;
      ghost var b, p := buf, wpos;
      PutInt(|str|);
      PutBytes(str);
      OverwrittenTwice(b, p, Int4(|str|), str);
      if p == |b| { OverwrittenAtEnd(b, Text(str)); }
    }

    /** Skips `bytes` octets for a later write; the vector grows by twice as much. */
    method ReserveBytes(bytes: nat) returns (pos: nat)
      modifies this`buf, this`wpos
      ensures pos == old(wpos) && wpos == pos + bytes
      ensures buf == Grown(old(buf), pos + 2 * bytes)
    {
      pos := wpos;
      wpos := wpos + bytes;
      if |buf| < wpos + bytes { buf := Grown(buf, wpos + bytes); }
    }

    // ----- reading

    method Read() returns (b: uint8)
      modifies this`rpos
      ensures b == ByteAt(buf, old(rpos)) && rpos == old(rpos) + 1
    {
      b := if rpos + 1 <= |buf| then buf[rpos] else 0;
      rpos := rpos + 1;
    }

    method GetInt() returns (v: int32)
      modifies this`rpos
      ensures v == IntAt(buf, old(rpos)) && rpos == old(rpos) + 4
    {
      var ch1 := Read();
      var ch2 := Read();
      var ch3 := Read();
      var ch4 := Read();
      v := ToInt32(0x100_0000 * (ch1 as int) + 0x1_0000 * (ch2 as int) + 0x100 * (ch3 as int) + ch4);
    }

    method GetLong() returns (v: int64)
      modifies this`rpos
      ensures v == LongAt(buf, old(rpos)) && rpos == old(rpos) + 8
    {
      var high := GetInt();
      var low := GetInt();
      v := ToInt64(0x1_0000_0000 * (ToUint32(high) as int) + ToUint32(low));
    }

    method GetBytes(len: nat) returns (str: Octets)
      modifies this`rpos
      ensures str == Bytes(buf, old(rpos), len) && rpos == old(rpos) + len
    {
      str := [];
      var i := 0;
      while i < len
        invariant 0 <= i <= len && rpos == old(rpos) + i
        invariant str == Bytes(buf, old(rpos), i)
      {
        var b := Read();
        str := str + [b];
        i := i + 1;
      }
    }

    method ReadString() returns (s: Octets)
      modifies this`rpos
      ensures s == TextAt(buf, old(rpos)) && rpos == old(rpos) + 4 + TextLength(buf, old(rpos))
    {
      var n := GetInt();
      var str := GetBytes(ToUint32(n));
      s := UntilNul(str);
    }
  }

  method ToByteMsg(b: Beacon) returns (msg: Octets)
    requires b.Valid()
    ensures msg == b.Message()
  {
    hide Overwritten, Int4, Text, Long8;
    var dos := new Buffer();
    WriteStrings(dos, b);
    WriteNumbers(dos, b);
    dos.PutLong(b.time);
    dos.PutInt(ToUint32(b.messageType));
    ConcatAssoc(b.Strings() + b.Numbers(), Long8(b.time), Int4(ToUint32(b.messageType)));
    msg := dos.buf;
  }

  method WriteStrings(dos: Buffer, b: Beacon)
    requires b.Valid() && dos.wpos == |dos.buf| == 0
    modifies dos
    ensures dos.wpos == |dos.buf| && dos.buf == b.Strings()
  {
    hide Overwritten, Int4, Text;
    dos.PutInt(VERSION);
    dos.WriteBytes(b.scannerID);
    dos.WriteBytes(b.uuid);
    assert [] + Int4(VERSION) == Int4(VERSION);
  }

  method WriteNumbers(dos: Buffer, b: Beacon)
    requires dos.wpos == |dos.buf|
    modifies dos
    ensures dos.wpos == |dos.buf| && dos.buf == old(dos.buf) + b.Numbers()
  {
    hide Overwritten, Int4, ToUint32;
    ghost var s := dos.buf;
    dos.PutInt(ToUint32(b.code));
    dos.PutInt(ToUint32(b.manufacturer));
    ConcatAssoc(s, Int4(ToUint32(b.code)), Int4(ToUint32(b.manufacturer)));
    dos.PutInt(ToUint32(b.major));
    dos.PutInt(ToUint32(b.minor));
    dos.PutInt(ToUint32(b.power));
    dos.PutInt(ToUint32(b.calibratedPower));
    dos.PutInt(ToUint32(b.rssi));
    assert dos.buf == s + b.Numbers();
  }

  method FromByteMsg(msg: Octets) returns (b: Beacon)
    ensures b == DecodeBeacon(msg)
  {
    hide IntAt, LongAt, TextAt, TextLength;
    var dis := new Buffer.FromArray(msg);
    var version := dis.GetInt();
    var scannerID := dis.ReadString();
    var uuid := dis.ReadString();
    var code := dis.GetInt();
    var manufacturer := dis.GetInt();
    var major := dis.GetInt();
    var minor := dis.GetInt();
    var power := dis.GetInt();
    var calibratedPower := dis.GetInt();
    var rssi := dis.GetInt();
    var messageType := dis.GetInt();
    var heartbeat := dis.GetInt();
    var time := dis.GetLong();
    b := Beacon(scannerID, uuid, 0, code, manufacturer, major, minor, power, calibratedPower, rssi, 0, time);
    b := b.(messageType := messageType);
  }

  /** A null-free name for an absent destination. */
  function DestinationOr(destination: Octets, fallback: Octets): Octets {
    if destination == [] then fallback else destination
  }

  const SCANNER_HEALTH: Octets := [115, 99, 97, 110, 110, 101, 114, 72, 101, 97, 108, 116, 104]
  const BEACON_EVENTS: Octets := [98, 101, 97, 99, 111, 110, 69, 118, 101, 110, 116, 115]

  /** The publisher's buffer filled with the frame of a property list. The length is written back into its
      reserved place, and the octets reserved too many are those of the entry count. */
  method PublishProperties(buffer: Buffer, destination: Octets, es: seq<Entry>) returns (msg: Octets)
    requires |destination| < 0x1_0000_0000 && Fits(es) && |Properties(es)| < 0x1_0000_0000
    modifies buffer
    ensures msg == buffer.buf == PropertiesFrame(DestinationOr(destination, SCANNER_HEALTH), es)
  {
    hide Overwritten, Int4, Text, Grown, Zeros;
    ghost var d := Text(DestinationOr(destination, SCANNER_HEALTH));
    WriteDestination(buffer, destination, SCANNER_HEALTH);
    var sizePos := buffer.ReserveBytes(4);
    var start := buffer.wpos;
    ReservedIsOverwritten(d, Int4(|es|));
    buffer.PutInt(|es|);
    WritePairs(buffer, es);
    var end := buffer.wpos;
    buffer.SetWritePos(sizePos);
    ConcatAssoc(d + Zeros(4), Int4(|es|), Pairs(es));
    OverwrittenInside(d, Zeros(4), Properties(es), Int4(|Properties(es)|));
    assert end - start == |Properties(es)|;
    buffer.PutInt(end - start);
    msg := buffer.buf;
  }

  /** Starts a frame with its destination. */
  method WriteDestination(buffer: Buffer, destination: Octets, fallback: Octets)
    requires |destination| < 0x1_0000_0000 && |fallback| < 0x1_0000_0000
    modifies buffer
    ensures buffer.buf == Text(DestinationOr(destination, fallback)) && buffer.wpos == |buffer.buf|
  {
    hide Overwritten, Int4, Text;
    buffer.Clear();
    if |destination| == 0 {
      buffer.WriteBytes(fallback);
    } else {
      buffer.WriteBytes(destination);
    }
    ghost var d := Text(DestinationOr(destination, fallback));
    assert [] + d == d;
  }

  lemma ReservedIsOverwritten(d: Octets, s: Octets)
    requires |s| == 4
    ensures Overwritten(Grown(d, |d| + 8), |d| + 4, s) == d + Zeros(4) + s
  {
    assert Zeros(8) == Zeros(4) + Zeros(4) by {
      assert Zeros(5) == Zeros(4) + [0] && Zeros(6) == Zeros(5) + [0];
      assert Zeros(7) == Zeros(6) + [0] && Zeros(8) == Zeros(7) + [0];
      assert Zeros(1) == [0] && Zeros(2) == [0, 0] && Zeros(3) == [0, 0, 0] && Zeros(4) == [0, 0, 0, 0];
    }
    ConcatAssoc(d, Zeros(4), Zeros(4));
    assert d + Zeros(4) + Zeros(4) + [] == d + Zeros(4) + Zeros(4);
    OverwrittenInside(d + Zeros(4), Zeros(4), [], s);
    assert d + Zeros(4) + s + [] == d + Zeros(4) + s;
  }

  method WritePairs(buffer: Buffer, es: seq<Entry>)
    requires Fits(es) && buffer.wpos == |buffer.buf|
    modifies buffer
    ensures buffer.wpos == |buffer.buf| && buffer.buf == old(buffer.buf) + Pairs(es)
  {
    hide Overwritten, Text;
    ghost var before := buffer.buf;
    var i := 0;
    while i < |es|
      invariant 0 <= i <= |es| && buffer.wpos == |buffer.buf|
      invariant Fits(es[..i]) && buffer.buf == before + Pairs(es[..i])
    {
      ghost var front := Pairs(es[..i]);
      assert es[..i + 1][..i] == es[..i];
      ConcatAssoc(before, front, Text(es[i].0) + Text(es[i].1));
      ConcatAssoc(before + front, Text(es[i].0), Text(es[i].1));
      buffer.WriteBytes(es[i].0);
      buffer.WriteBytes(es[i].1);
      i := i + 1;
    }
    assert es[..i] == es;
  }

  /** The reader of the status broadcast: a count and so many pairs. A negative count reads none. */
  method ReadProperties(buffer: Buffer) returns (count: int, es: seq<Entry>)
    modifies buffer
    ensures count == IntAt(buffer.buf, old(buffer.rpos)) && buffer.buf == old(buffer.buf)
    ensures (es, buffer.rpos) == PairsAt(buffer.buf, old(buffer.rpos) + 4, if count < 0 then 0 else count)
  {
    hide TextAt, TextLength, IntAt;
    ghost var start := buffer.rpos + 4;
    count := buffer.GetInt();
    es := [];
    var n := 0;
    while n < count
      invariant 0 <= n && (count >= 0 ==> n <= count) && (count < 0 ==> n == 0)
      invariant buffer.buf == old(buffer.buf)
      invariant (es, buffer.rpos) == PairsAt(buffer.buf, start, n)
    {
      var name := buffer.ReadString();
      var value := buffer.ReadString();
      es := es + [(name, value)];
      n := n + 1;
    }
  }

  /** The octets of a text of the basic character set. */
  function OctetsOf(s: string): (os: Octets)
    requires forall i :: 0 <= i < |s| ==> s[i] < '\U{0080}'
    ensures |os| == |s|
  {
    seq(|s|, i requires 0 <= i < |s| => s[i] as int)
  }

  lemma DefaultNames()
    ensures SCANNER_HEALTH == OctetsOf("scannerHealth") && NulFree(SCANNER_HEALTH)
    ensures BEACON_EVENTS == OctetsOf("beaconEvents") && NulFree(BEACON_EVENTS)
  {
  }

  /** The octets that follow each other on the wire come back as they were published: under the given
      destination, or under the publisher's own name if none is given. */
  method PropertiesRoundTrip(destination: Octets, es: seq<Entry>)
      returns (name: Octets, length: int32, read: seq<Entry>)
    requires |destination| < 0x1_0000_0000 && Fits(es) && |Properties(es)| < 0x1_0000_0000
    ensures destination != [] && NulFree(destination) ==> name == destination
    ensures destination == [] ==> name == OctetsOf("scannerHealth")
    ensures AllNulFree(es) ==> read == es
    ensures ToUint32(length) == |Properties(es)|
  {
    DefaultNames();
    hide IntAt, TextAt, TextLength, PairsAt, Cut, UntilNul;
    var buffer := new Buffer();
    var msg := PublishProperties(buffer, destination, es);
    var target := DestinationOr(destination, SCANNER_HEALTH);
    FrameReads(target, es);
    UntilNulExact(target);
    CutExact(es);
    UntilNulExact(SCANNER_HEALTH);
    var reader := new Buffer.FromArray(msg);
    name := reader.ReadString();
    length := reader.GetInt();
    var count;
    count, read := ReadProperties(reader);
  }

  /** The frame of a beacon: destination, length of the message, and the message. */
  method Publish(buffer: Buffer, destination: Octets, beacon: Beacon) returns (msg: Octets)
    requires |destination| < 0x1_0000_0000 && beacon.Valid() && |beacon.Message()| < 0x1_0000_0000
    modifies buffer
    ensures msg == Text(DestinationOr(destination, BEACON_EVENTS)) + Int4(|beacon.Message()|) + beacon.Message()
  {
    hide Overwritten, Int4, Text, Beacon.Message;
    msg := ToByteMsg(beacon);
    WriteDestination(buffer, destination, BEACON_EVENTS);
    buffer.PutInt(|msg|);
    msg := buffer.buf + msg;
  }

  /** A beacon comes back from the wire, under the given destination or the publisher's own name, with the length
      of its message and the octets of the message, as a reader in writer order takes it. */
  method BeaconRoundTrip(destination: Octets, beacon: Beacon)
      returns (name: Octets, length: int32, message: Octets)
    requires |destination| < 0x1_0000_0000 && beacon.Valid() && |beacon.Message()| < 0x1_0000_0000
    ensures destination != [] && NulFree(destination) ==> name == destination
    ensures destination == [] ==> name == OctetsOf("beaconEvents")
    ensures message == beacon.Message() && ToUint32(length) == |message|
    ensures NulFree(beacon.scannerID) && NulFree(beacon.uuid) && beacon.sequenceNo == 0 ==>
      DecodeInWriterOrder(message) == beacon
  {
    hide IntAt, TextAt, TextLength, UntilNul, Text, Int4, DecodeInWriterOrder, Beacon.Message;
    DefaultNames();
    var buffer := new Buffer();
    var frame := Publish(buffer, destination, beacon);
    var target := DestinationOr(destination, BEACON_EVENTS);
    MessageFrameReads(target, beacon.Message());
    UntilNulExact(target);
    UntilNulExact(beacon.scannerID);
    UntilNulExact(beacon.uuid);
    MessageRead(beacon);
    var reader := new Buffer.FromArray(frame);
    name := reader.ReadString();
    length := reader.GetInt();
    message := reader.GetBytes(ToUint32(length));
    BytesStand(frame, |frame| - |beacon.Message()|, beacon.Message());
  }
}
