/** The byte decoder of src2/hcidumpinternal.c: from an HCI frame to a beacon record. */
module NativeDecoder {
  import opened Wrappers
  import opened CArith
  import opened Advertising

  /** The value of a `beacon_info` record. */
  datatype Info = Info(uuid: string, code: int, manufacturer: int, major: int, minor: int, power: int,
                       calibratedPower: int, rssi: int, time: int)
  {
    function Beacon(): Fields {
      Fields(manufacturer, code, uuid, major, minor, calibratedPower)
    }
  }

  /** The record after `memset(&info, 0, ...)`. */
  const NO_INFO := Info("", 0, 0, 0, 0, 0, 0, 0, 0)

  /** The effect of one AD structure at `pos` of the frame; `None` if it reads outside the frame. */
  function AdEffect(frame: Octets, pos: nat, millis: int, info: Info): Option<Info> {
    if pos >= |frame| then None
    else if frame[pos] == 0 then Some(info)
    else if pos + 1 >= |frame| then None
    else if frame[pos + 1] == 0x0A then
      if pos + 2 >= |frame| then None else Some(info.(power := frame[pos + 2]))
    else if frame[pos + 1] == MANUFACTURER_DATA && frame[pos] - 1 >= MIN_MANUFACTURER_DATA_SIZE then
      if pos + 2 + MIN_MANUFACTURER_DATA_SIZE > |frame| then None
      else Some(WithBeacon(info, FieldsOf(frame[pos + 2..pos + 2 + MIN_MANUFACTURER_DATA_SIZE]), millis))
    else Some(info)
  }

  function WithBeacon(info: Info, f: Fields, millis: int): Info {
    Info(f.uuid, f.code, f.manufacturer, f.major, f.minor, info.power, f.calibratedPower, info.rssi, millis)
  }

  /** The effect of all AD structures from `offset` on, out of `length` octets that begin at `base`. */
  function WalkEffect(frame: Octets, base: nat, length: nat, offset: nat, millis: int, info: Info): Option<Info>
    decreases length - offset
  {
    if offset >= length then Some(info)
    else match AdEffect(frame, base + offset, millis, info)
      case None => None
      case Some(next) => WalkEffect(frame, base, length, offset + frame[base + offset] + 1, millis, next)
  }

  /** The effect of `reports` advertising reports from `ptr` on. The signal strength is always taken from
      the last octet of the frame. */
  function ReportsEffect(frame: Octets, reports: nat, ptr: nat, millis: int, info: Info): Option<Info> {
    if reports == 0 then Some(info)
    else if ptr + 9 > |frame| then None
    else match WalkEffect(frame, ptr + 9, frame[ptr + 8], 0, millis, info)
      case None => None
      case Some(next) =>
        if ptr + 9 + frame[ptr + 8] >= |frame| then None
        else ReportsEffect(frame, reports - 1, ptr + 9 + frame[ptr + 8] + 1, millis,
                           next.(rssi := ToInt8(frame[|frame| - 1])))
  }

  /** The record that a frame leaves behind. */
  function FrameEffect(frame: Octets, millis: int): Option<Info> {
    if |frame| < 1 then None
    else if frame[0] != 0x04 then Some(NO_INFO)
    else if |frame| < 2 then None
    else if frame[1] != 0x3E then Some(NO_INFO)
    else if |frame| < 4 then None
    else if frame[3] != 0x02 then Some(NO_INFO)
    else if |frame| < 5 then None
    else ReportsEffect(frame, frame[4], 5, millis, NO_INFO)
  }

  class BeaconInfo {
    var uuid: string
    var code: int
    var manufacturer: int
    var major: int
    var minor: int
    var power: int
    var calibratedPower: int
    var rssi: int
    var time: int

    function Value(): Info
      reads this
    {
      Info(uuid, code, manufacturer, major, minor, power, calibratedPower, rssi, time)
    }

    constructor ()
      ensures Value() == NO_INFO
    {
      uuid, code, manufacturer, major, minor := "", 0, 0, 0, 0;
      power, calibratedPower, rssi, time := 0, 0, 0, 0;
    }
  }

  /** A frame being parsed: `ptr` advances over `data` while `len` counts the octets left. */
  class HciFrame {
    const data: Octets
    const tsSec: int
    const tsUsec: nat
    var ptr: nat
    var len: int

    ghost predicate Valid()
      reads this
    {
      ptr + len == |data|
    }

    constructor (data: Octets, tsSec: int, tsUsec: nat)
      ensures Valid() && ptr == 0
      ensures this.data == data && this.tsSec == tsSec && this.tsUsec == tsUsec
    {
      this.data, this.tsSec, this.tsUsec, ptr, len := data, tsSec, tsUsec, 0, |data|;
    }

    function Millis(): int {
      tsSec * 1000 + tsUsec / 1000
    }

    method Advance(n: nat)
      requires Valid()
      modifies this`ptr, this`len
      ensures Valid() && ptr == old(ptr) + n
    {
      ptr, len := ptr + n, len - n;
    }
  }

  /** Parses one AD structure at `pos`. */
  method ExtInquiryDataDump(frm: HciFrame, pos: nat, info: BeaconInfo) returns (ok: bool)
    modifies info
    ensures var effect := AdEffect(frm.data, pos, frm.Millis(), old(info.Value()));
      ok == effect.Some? && (ok ==> info.Value() == effect.value)
  {
    var data := frm.data;
    if pos >= |data| { return false; }
    var len := data[pos];
    if len == 0 { return true; }
    if pos + 1 >= |data| { return false; }
    var kind := data[pos + 1];
    len := len - 1;
    if kind == 0x0A {
      if pos + 2 >= |data| { return false; }
      info.power := data[pos + 2];
    } else if kind == MANUFACTURER_DATA {
      if len < MIN_MANUFACTURER_DATA_SIZE { return true; }
      if pos + 2 + MIN_MANUFACTURER_DATA_SIZE > |data| { return false; }
      ReadBeacon(frm, data[pos + 2..pos + 2 + MIN_MANUFACTURER_DATA_SIZE], info);
    }
    return true;
  }

  /** Fills the record from the manufacturer data. */
  method ReadBeacon(frm: HciFrame, data: BeaconData, info: BeaconInfo)
    modifies info
    ensures info.Value() == WithBeacon(old(info.Value()), FieldsOf(data), frm.Millis())
  {
    info.time := frm.tsSec;
    info.time := info.time * 1000;
    info.time := info.time + frm.tsUsec / 1000;
    info.manufacturer := 256 * (data[0] as int) + data[1];
    info.code := 256 * (data[2] as int) + data[3];
    var index := 4;
    info.uuid := "";
    while index < 4 + UUID_SIZE
      invariant 4 <= index <= 4 + UUID_SIZE
      invariant info.uuid == HexString(data[4..index])
      invariant info.Value().(uuid := "") == old(info.Value()).(uuid := "", time := frm.Millis(),
        manufacturer := Word(data[0], data[1]), code := Word(data[2], data[3]))
    {
      HexStringConcat(data[4..index], [data[index]]);
      assert data[4..index + 1] == data[4..index] + [data[index]];
      assert HexString([data[index]]) == HexPair(data[index]) + HexString([]);
      info.uuid := info.uuid + [ToHexChar(data[index] / 16), ToHexChar(data[index] % 16)];
      index := index + 1;
    }
    info.major := 256 * (data[20] as int) + data[21];
    info.minor := 256 * (data[22] as int) + data[23];
    info.calibratedPower := data[24] as int - 256;
  }

  /** Parses the reports of an LE Advertising Report event. */
  method AdvertisingReportDump(frm: HciFrame, info: BeaconInfo) returns (ok: bool)
    requires frm.Valid() && frm.ptr < |frm.data|
    modifies frm`ptr, frm`len, info
    ensures var effect := ReportsEffect(frm.data, frm.data[old(frm.ptr)], old(frm.ptr) + 1, frm.Millis(),
                                      old(info.Value()));
      ok == effect.Some? && (ok ==> info.Value() == effect.value)
  {
    var numReports: int := frm.data[frm.ptr];
    frm.Advance(1);
    ghost var effect := ReportsEffect(frm.data, numReports, frm.ptr, frm.Millis(), info.Value());
    while numReports > 0
      invariant frm.Valid() && 0 <= numReports
      invariant effect == ReportsEffect(frm.data, numReports, frm.ptr, frm.Millis(), info.Value())
    {
      if frm.ptr + 9 > |frm.data| { return false; }
      var length: int := frm.data[frm.ptr + 8];
      ok := WalkStructures(frm, frm.ptr + 9, length, info);
      if !ok { return false; }
      frm.Advance(9 + length);
      if frm.len <= 0 { return false; }
      info.rssi := ToInt8(frm.data[frm.ptr + frm.len - 1]);
      frm.Advance(1);
      numReports := numReports - 1;
    }
    return true;
  }

  method WalkStructures(frm: HciFrame, base: nat, length: nat, info: BeaconInfo) returns (ok: bool)
    modifies info
    ensures var effect := WalkEffect(frm.data, base, length, 0, frm.Millis(), old(info.Value()));
      ok == effect.Some? && (ok ==> info.Value() == effect.value)
  {
    var offset := 0;
    ghost var effect := WalkEffect(frm.data, base, length, 0, frm.Millis(), info.Value());
    while offset < length
      invariant 0 <= offset
      invariant effect == WalkEffect(frm.data, base, length, offset, frm.Millis(), info.Value())
    {
      ok := ExtInquiryDataDump(frm, base + offset, info);
      if !ok { return false; }
      offset := offset + frm.data[base + offset] + 1;
    }
    return true;
  }

  /** Parses a whole frame into a cleared record. */
  method ParseFrame(data: Octets, tsSec: int, tsUsec: nat) returns (ok: bool, result: Info)
    ensures var effect := FrameEffect(data, tsSec * 1000 + tsUsec / 1000);
      ok == effect.Some? && (ok ==> result == effect.value)
  {
    var frm := new HciFrame(data, tsSec, tsUsec);
    var info := new BeaconInfo();
    result := info.Value();
    if |data| < 1 { return false, result; }
    var kind := data[frm.ptr];
    frm.Advance(1);
    if kind != 0x04 { return true, result; }
    if |data| < 2 { return false, result; }
    var event := data[frm.ptr];
    frm.Advance(2);
    if event != 0x3E { return true, result; }
    if |data| < 4 { return false, result; }
    var subevent := data[frm.ptr];
    frm.Advance(1);
    if subevent != 0x02 { return true, result; }
    if |data| < 5 { return false, result; }
    ok := AdvertisingReportDump(frm, info);
    result := info.Value();
  }
}
