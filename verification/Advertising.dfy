/** The octets of an LE Advertising Report event: Bluetooth Core Specification 4.2, Vol 2 Part E
    section 7.7.65.2, with the AD structures of Vol 3 Part C section 11. */
module Advertising {
  import opened CArith

  type Octets = seq<uint8>

  const MANUFACTURER_DATA: uint8 := 0xFF
  const UUID_SIZE := 16
  const MIN_MANUFACTURER_DATA_SIZE := 2 + 2 + UUID_SIZE + 2 + 2 + 1
  /** The octet of a single-report frame at which its AD structures begin. */
  const AD_START := 14

  /** An AD structure that is not manufacturer data; a structure of length zero is padding. */
  datatype Ad = Padding | Structure(kind: uint8, data: Octets)
  {
    predicate Valid() {
      Structure? ==> kind != MANUFACTURER_DATA && |data| <= 254
    }

    function Encoded(): (s: Octets)
      requires Valid()
    {
      match this
      case Padding => [0]
      case Structure(kind, data) => [|data| + 1, kind] + data
    }
  }

  type ValidAd = a: Ad | a.Valid() witness Padding

  function Encode(ads: seq<ValidAd>): (s: Octets) {
    if ads == [] then [] else ads[0].Encoded() + Encode(ads[1..])
  }

  /** The 25 octets of beacon data, as both decoders cut them up. */
  type BeaconData = s: Octets | |s| == MIN_MANUFACTURER_DATA_SIZE
    witness [0, 0, 0, 0, 0, 0, 0, 0, 0, 0, 0, 0, 0, 0, 0, 0, 0, 0, 0, 0, 0, 0, 0, 0, 0]

  function Payload(ads: seq<ValidAd>, beacon: BeaconData): Octets {
    Encode(ads) + ([0x1A, MANUFACTURER_DATA] + beacon)
  }

  /** A received advertisement: its report's address part and AD structures, the manufacturer data last. */
  datatype Report = Report(evtType: uint8, addrType: uint8, addr: Octets, ads: seq<ValidAd>, beacon: BeaconData,
                           rssi: uint8)
  {
    /** The parameter length of an HCI event is a single octet. */
    predicate Valid() {
      |addr| == 6 && 12 + |Payload(ads, beacon)| <= 255
    }

    function Header(): (h: Octets)
      requires Valid()
      ensures |h| == AD_START
    {
      [0x04, 0x3E, 12 + |Payload(ads, beacon)|, 0x02, 0x01, evtType, addrType] + addr + [|Payload(ads, beacon)|]
    }

    function Frame(): (f: Octets)
      requires Valid()
    {
      Header() + (Payload(ads, beacon) + [rssi])
    }
  }

  /** An upper-case hexadecimal digit. */
  function ToHexChar(b: int): (c: char)
    requires 0 <= b < 16
    ensures c != ' ' && c != '-'
  {
    if b < 10 then '0' + b as char else 'A' + (b - 10) as char
  }

  function HexPair(o: uint8): (s: string)
    ensures |s| == 2
  {
    [ToHexChar(o / 16), ToHexChar(o % 16)]
  }

  /** Hexadecimal text without separators. */
  function HexString(os: Octets): (s: string)
    ensures |s| == 2 * |os|
  {
    if os == [] then "" else HexPair(os[0]) + HexString(os[1..])
  }

  lemma {:induction false} HexStringConcat(a: Octets, b: Octets)
    ensures HexString(a + b) == HexString(a) + HexString(b)
  {
    if a == [] {
      assert a + b == b;
    } else {
      assert (a + b)[1..] == a[1..] + b;
      HexStringConcat(a[1..], b);
    }
  }

  function Word(high: uint8, low: uint8): int {
    256 * high + low
  }

  /** What a beacon's 25 octets mean. */
  datatype Fields = Fields(manufacturer: int, code: int, uuid: string, major: int, minor: int, calibratedPower: int)

  function FieldsOf(d: BeaconData): Fields {
    Fields(Word(d[0], d[1]), Word(d[2], d[3]), HexString(d[4..20]),
           Word(d[20], d[21]), Word(d[22], d[23]), d[24] as int - 256)
  }
}
