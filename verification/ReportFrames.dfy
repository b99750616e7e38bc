/** Frames with any number of reports, frames that are no advertising report, and what the octets of a beacon
    mean. */
module ReportFrames {
  import opened Wrappers
  import opened CArith
  import opened SeqFacts
  import opened Advertising
  import opened TextDecoder
  import opened HexColumns
  import opened DecoderAgreement
  import N = NativeDecoder

  // ----- the beacon data

  /** A 16-bit number, the high octet first. */
  function TwoOctets(v: int): (os: Octets)
    requires 0 <= v < 0x1_0000
    ensures |os| == 2
  {
    [v / 256, v % 256]
  }

  /** The data of a beacon: manufacturer, code, uuid, major and minor id, and the calibrated power in two's
      complement. */
  function BeaconOctets(manufacturer: int, code: int, uuid: Octets, major: int, minor: int, power: int): (d: BeaconData)
    requires 0 <= manufacturer < 0x1_0000 && 0 <= code < 0x1_0000 && 0 <= major < 0x1_0000 && 0 <= minor < 0x1_0000
    requires |uuid| == UUID_SIZE && -256 <= power < 0
  {
    TwoOctets(manufacturer) + TwoOctets(code) + uuid + TwoOctets(major) + TwoOctets(minor) + [power + 256]
  }

  /** It is read back field by field. */
  lemma FieldsReadBack(manufacturer: int, code: int, uuid: Octets, major: int, minor: int, power: int)
    requires 0 <= manufacturer < 0x1_0000 && 0 <= code < 0x1_0000 && 0 <= major < 0x1_0000 && 0 <= minor < 0x1_0000
    requires |uuid| == UUID_SIZE && -256 <= power < 0
    ensures FieldsOf(BeaconOctets(manufacturer, code, uuid, major, minor, power))
         == Fields(manufacturer, code, HexString(uuid), major, minor, power)
  {
    hide HexString;
    assert BeaconOctets(manufacturer, code, uuid, major, minor, power)[4..20] == uuid;
  }

  /** The uuid's text shows its octets as pairs of digits, in order, each pair reading as its octet. */
  lemma {:induction false} HexStringAt(os: Octets, i: nat)
    requires i < |os|
    ensures HexString(os)[2 * i..2 * i + 2] == HexPair(os[i]) && MyStoi(HexString(os)[2 * i..2 * i + 2]) == os[i]
  {
    PairValue(os[i]);
    ConcatParts(HexPair(os[0]), HexString(os[1..]));
    if i > 0 {
      HexStringAt(os[1..], i - 1);
      DropSlice(HexString(os), 2, 2 * i - 2, 2 * i);
    }
  }

  // ----- frames that carry no beacon

  /** Other packets, events and subevents leave the cleared record. */
  lemma OtherFramesIgnored(frame: Octets, millis: int)
    requires |frame| >= 4 && (frame[0] != 0x04 || frame[1] != 0x3E || frame[3] != 0x02)
    ensures N.FrameEffect(frame, millis) == Some(N.NO_INFO)
  {
  }

  /** So do structures of other types, and manufacturer data of fewer than 25 octets. */
  lemma OtherStructuresIgnored(frame: Octets, pos: nat, millis: int, info: N.Info)
    requires pos + 1 < |frame| && frame[pos + 1] != TX_POWER
    requires frame[pos + 1] != MANUFACTURER_DATA || frame[pos] <= 25
    ensures N.AdEffect(frame, pos, millis, info) == Some(info)
  {
  }

  // ----- several reports in one frame

  function ReportOctets(r: Report): Octets {
    [r.evtType, r.addrType] + r.addr + [ToUint8(|Payload(r.ads, r.beacon)|)] + (Payload(r.ads, r.beacon) + [r.rssi])
  }

  function AllReports(rs: seq<Report>): Octets {
    if rs == [] then [] else ReportOctets(rs[0]) + AllReports(rs[1..])
  }

  predicate ValidReports(rs: seq<Report>) {
    0 < |rs| <= 255 && 2 + |AllReports(rs)| <= 255 && forall i :: 0 <= i < |rs| ==> |rs[i].addr| == 6
  }

  function FrameOf(rs: seq<Report>): Octets
    requires ValidReports(rs)
  {
    [0x04, 0x3E, 2 + |AllReports(rs)|, 0x02, |rs|] + AllReports(rs)
  }

  /** For a single report this is the frame of before. */
  lemma SingleFrame(r: Report)
    requires r.Valid()
    ensures ValidReports([r]) && FrameOf([r]) == r.Frame()
  {
    assert AllReports([r]) == ReportOctets(r) + [] by { assert [r][1..] == []; }
    assert ReportOctets(r) + [] == ReportOctets(r);
  }

  /** The reports stand in the frame from `ptr` to its end. */
  ghost predicate ReportsAt(os: Octets, ptr: nat, rs: seq<Report>) {
    ptr <= |os| && os[ptr..] == AllReports(rs)
  }

  lemma FirstReport(os: Octets, ptr: nat, rs: seq<Report>)
    requires ReportsAt(os, ptr, rs) && rs != [] && |rs[0].addr| == 6 && |Payload(rs[0].ads, rs[0].beacon)| <= 255
    ensures var n := |Payload(rs[0].ads, rs[0].beacon)|;
      && ptr + 9 + n < |os| && os[ptr + 8] == n
      && Holds(os, ptr + 9, rs[0].ads, rs[0].beacon, [rs[0].rssi] + AllReports(rs[1..]))
      && ReportsAt(os, ptr + 9 + n + 1, rs[1..])
      && os[ptr + 9 + n] == rs[0].rssi
  {
    hide AllReports, Payload;
    var r := rs[0];
    var payload, rest := Payload(r.ads, r.beacon), AllReports(rs[1..]);
    var head := [r.evtType, r.addrType] + r.addr + [ToUint8(|payload|)];
    assert AllReports(rs) == ReportOctets(r) + rest by { AllReportsFirst(rs); }
    assert ReportOctets(r) == head + (payload + [r.rssi]);
    ConcatAssoc(head, payload + [r.rssi], rest);
    ConcatAssoc(payload, [r.rssi], rest);
    DropParts(os, ptr, head, payload + ([r.rssi] + rest));
    DropParts(os, ptr + 9, payload, [r.rssi] + rest);
    DropParts(os, ptr + 9 + |payload|, [r.rssi], rest);
    assert os[ptr + 8] == head[8];
  }

  lemma AllReportsFirst(rs: seq<Report>)
    requires rs != []
    ensures AllReports(rs) == ReportOctets(rs[0]) + AllReports(rs[1..])
  {
  }

  lemma PayloadFits(rs: seq<Report>)
    requires rs != [] && |AllReports(rs)| <= 253
    ensures |Payload(rs[0].ads, rs[0].beacon)| <= 253 && |AllReports(rs[1..])| <= |AllReports(rs)|
  {
    hide Payload;
  }

  /** The power after all structures of all reports. */
  function PowerOfAll(rs: seq<Report>, power: int): int {
    if rs == [] then power else PowerOfAll(rs[1..], PowerAfter(rs[0].ads, power))
  }

  lemma LastOctet(os: Octets, ptr: nat, rs: seq<Report>)
    requires ReportsAt(os, ptr, rs) && rs != []
    ensures |os| > ptr && os[|os| - 1] == rs[|rs| - 1].rssi
    decreases |rs|
  {
    hide Payload;
    var first, rest := ReportOctets(rs[0]), AllReports(rs[1..]);
    DropParts(os, ptr, first, rest);
    if |rs| == 1 {
      assert rest == [] && os[ptr + (|first| - 1)] == first[|first| - 1] == rs[0].rssi;
    } else {
      assert ReportsAt(os, ptr + |first|, rs[1..]);
      LastOctet(os, ptr + |first|, rs[1..]);
    }
  }

  /** The reports from `ptr` on leave the beacon, the signal strength and the time of the last one. */
  lemma {:induction false} ReportsDecode(os: Octets, ptr: nat, rs: seq<Report>, millis: int, info: N.Info)
    requires ReportsAt(os, ptr, rs) && rs != [] && |AllReports(rs)| <= 253
    requires forall i :: 0 <= i < |rs| ==> |rs[i].addr| == 6
    ensures var effect, last := N.ReportsEffect(os, |rs|, ptr, millis, info), rs[|rs| - 1];
      effect.Some? && effect.value.Beacon() == FieldsOf(last.beacon)
      && effect.value.rssi == ToInt8(last.rssi) && effect.value.time == millis
      && effect.value.power == PowerOfAll(rs, info.power)
    decreases |rs|
  {
    hide ReportsAt, Holds, AllReports, Payload, FieldsOf, N.WalkEffect, PowerAfter, ToInt8;
    PayloadFits(rs);
    FirstReport(os, ptr, rs);
    LastOctet(os, ptr, rs);
    var r, n := rs[0], |Payload(rs[0].ads, rs[0].beacon)|;
    NativeWalk(os, ptr + 9, 0, n, r.ads, r.beacon, [r.rssi] + AllReports(rs[1..]), millis, info);
    var walked := N.WalkEffect(os, ptr + 9, n, 0, millis, info).value;
    var next := walked.(rssi := ToInt8(os[|os| - 1]));
    OneReport(os, |rs|, ptr, millis, info, walked);
    if |rs| == 1 {
      assert N.ReportsEffect(os, 0, ptr + 9 + n + 1, millis, next) == Some(next);
    } else {
      ReportsDecode(os, ptr + 9 + n + 1, rs[1..], millis, next);
    }
  }

  lemma OneReport(os: Octets, count: nat, ptr: nat, millis: int, info: N.Info, walked: N.Info)
    requires count > 0 && ptr + 9 <= |os| && ptr + 9 + os[ptr + 8] < |os|
    requires N.WalkEffect(os, ptr + 9, os[ptr + 8], 0, millis, info) == Some(walked)
    ensures N.ReportsEffect(os, count, ptr, millis, info)
         == N.ReportsEffect(os, count - 1, ptr + 9 + os[ptr + 8] + 1, millis,
                            walked.(rssi := ToInt8(os[|os| - 1])))
  {
    hide N.WalkEffect, ToInt8;
  }

  /** A frame of several reports leaves the record of the last one, with the transmission power that was last
      given in any of them. */
  lemma ManyReportsDecode(rs: seq<Report>, millis: int)
    requires ValidReports(rs)
    ensures var effect, last := N.FrameEffect(FrameOf(rs), millis), rs[|rs| - 1];
      effect.Some? && effect.value.Beacon() == FieldsOf(last.beacon)
      && effect.value.rssi == ToInt8(last.rssi) && effect.value.time == millis
      && effect.value.power == PowerOfAll(rs, 0)
  {
    hide AllReports, FieldsOf, ToInt8, PowerOfAll, N.ReportsEffect;
    var os := FrameOf(rs);
    assert os[5..] == AllReports(rs);
    ReportsDecode(os, 5, rs, millis, N.NO_INFO);
  }
}
