/** The byte decoder and the text decoder agree on every single-report frame. */
module DecoderAgreement {
  import opened CArith
  import opened SeqFacts
  import opened Advertising
  import opened TextDecoder
  import opened HexColumns
  import opened Wrappers
  import N = NativeDecoder

  /** From octet `pos` on, `os` holds the structures `ads`, the beacon's manufacturer data and `tail`. */
  ghost predicate Holds(os: Octets, pos: nat, ads: seq<ValidAd>, beacon: BeaconData, tail: Octets) {
    pos <= |os| && os[pos..] == Payload(ads, beacon) + tail
  }

  lemma HoldsSize(os: Octets, pos: nat, ads: seq<ValidAd>, beacon: BeaconData, tail: Octets)
    requires Holds(os, pos, ads, beacon, tail)
    ensures pos + |Payload(ads, beacon)| + |tail| == |os| && |Payload(ads, beacon)| == |Encode(ads)| + 27
  {
    assert |os[pos..]| == |Payload(ads, beacon) + tail|;
  }

  /** Behind the last other structure comes the manufacturer data. */
  lemma HoldsBeacon(os: Octets, pos: nat, beacon: BeaconData, tail: Octets)
    requires Holds(os, pos, [], beacon, tail)
    ensures |os| == pos + 27 + |tail|
    ensures os[pos] == 0x1A && os[pos + 1] == MANUFACTURER_DATA
    ensures os[pos + 2..pos + 27] == beacon && os[pos + 27..] == tail
  {
    var head: Octets := [0x1A, MANUFACTURER_DATA];
    assert Payload([], beacon) == head + beacon;
    DropParts(os, pos, head + beacon, tail);
    ConcatAssoc(head, beacon, tail);
    DropParts(os, pos, head, beacon + tail);
    DropParts(os, pos + 2, beacon, tail);
  }

  /** The first of several structures, and what follows it. */
  lemma HoldsMore(os: Octets, pos: nat, ads: seq<ValidAd>, beacon: BeaconData, tail: Octets)
    requires Holds(os, pos, ads, beacon, tail) && ads != []
    ensures var n := |ads[0].Encoded()|;
      && 0 < n && |Encode(ads)| == n + |Encode(ads[1..])|
      && Holds(os, pos + n, ads[1..], beacon, tail)
      && os[pos] == n - 1 && (n > 1 ==> os[pos + 1] == ads[0].kind != MANUFACTURER_DATA)
  {
    var e, more, last := ads[0].Encoded(), Encode(ads[1..]), [0x1A, MANUFACTURER_DATA] + beacon;
    EncodedShape(ads[0]);
    ConcatAssoc(e, more, last);
    ConcatAssoc(e, more + last, tail);
    DropParts(os, pos, e, (more + last) + tail);
  }

  lemma DropParts(os: Octets, pos: nat, a: Octets, b: Octets)
    requires pos <= |os| && os[pos..] == a + b
    ensures pos + |a| + |b| == |os| && os[pos + |a|..] == b && os[pos..pos + |a|] == a
    ensures forall i :: 0 <= i < |a| ==> os[pos + i] == a[i]
  {
    ConcatParts(a, b);
    DropDrop(os, pos, |a|);
    DropSlice(os, pos, 0, |a|);
    forall i | 0 <= i < |a| ensures os[pos + i] == a[i] {
      assert os[pos..][i] == (a + b)[i];
    }
  }

  lemma EncodedShape(ad: ValidAd)
    ensures var e := ad.Encoded();
      |e| > 0 && e[0] == |e| - 1 && (|e| > 1 ==> e[1] == ad.kind != MANUFACTURER_DATA)
  {
  }

  const TX_POWER: uint8 := 0x0A

  /** The octet behind the type of the first structure: its first data octet, or if it has none, the first octet
      of what follows. */
  function OctetBehindType(ads: seq<ValidAd>): uint8
    requires ads != [] && ads[0].Structure?
  {
    if ads[0].data != [] then ads[0].data[0] else if |ads| == 1 then 0x1A else ads[1].Encoded()[0]
  }

  /** The transmission power after the structures, from what it was before. */
  function PowerAfter(ads: seq<ValidAd>, power: int): int {
    if ads == [] then power
    else PowerAfter(ads[1..], if ads[0].Structure? && ads[0].kind == TX_POWER then OctetBehindType(ads) else power)
  }

  predicate IsPower(ad: ValidAd) {
    ad.Structure? && ad.kind == TX_POWER
  }

  /** It is the first data octet of the last structure of its type, and unchanged if there is none. */
  lemma {:induction false} PowerMeaning(ads: seq<ValidAd>, power: int, k: int)
    requires -1 <= k < |ads| && (k >= 0 ==> IsPower(ads[k]) && ads[k].data != [])
    requires forall i :: k < i < |ads| ==> !IsPower(ads[i])
    ensures PowerAfter(ads, power) == if k >= 0 then ads[k].data[0] else power
    decreases |ads|
  {
    if ads != [] {
      var next := if IsPower(ads[0]) then OctetBehindType(ads) else power;
      PowerMeaning(ads[1..], next, if k >= 0 then k - 1 else -1);
    }
  }

  /** The octet behind a structure's type, where the structure stands. */
  lemma HoldsBehindType(os: Octets, pos: nat, ads: seq<ValidAd>, beacon: BeaconData, tail: Octets)
    requires Holds(os, pos, ads, beacon, tail) && ads != [] && ads[0].Structure?
    ensures pos + 2 < |os| && os[pos + 1] == ads[0].kind && os[pos + 2] == OctetBehindType(ads)
  {
    var n := |ads[0].Encoded()|;
    HoldsMore(os, pos, ads, beacon, tail);
    HoldsSize(os, pos + n, ads[1..], beacon, tail);
    FirstEncoded(os, pos, ads, beacon, tail);
    if ads[0].data == [] {
      if |ads| == 1 {
        HoldsBeacon(os, pos + n, beacon, tail);
      } else {
        HoldsMore(os, pos + n, ads[1..], beacon, tail);
        EncodedShape(ads[1]);
      }
    }
  }

  lemma FirstEncoded(os: Octets, pos: nat, ads: seq<ValidAd>, beacon: BeaconData, tail: Octets)
    requires Holds(os, pos, ads, beacon, tail) && ads != []
    ensures var e := ads[0].Encoded();
      pos + |e| <= |os| && forall i :: 0 <= i < |e| ==> os[pos + i] == e[i]
  {
    var e, more, last := ads[0].Encoded(), Encode(ads[1..]), [0x1A, MANUFACTURER_DATA] + beacon;
    ConcatAssoc(e, more, last);
    ConcatAssoc(e, more + last, tail);
    DropParts(os, pos, e, more + last + tail);
  }

  /** The byte decoder's walk ends with the beacon of the manufacturer data. */
  lemma {:induction false} NativeWalk(os: Octets, base: nat, offset: nat, length: nat, ads: seq<ValidAd>,
      beacon: BeaconData, tail: Octets, millis: int, info: N.Info)
    requires Holds(os, base + offset, ads, beacon, tail) && length == offset + |Payload(ads, beacon)|
    ensures var effect := N.WalkEffect(os, base, length, offset, millis, info);
      effect.Some? && effect.value.Beacon() == FieldsOf(beacon)
      && effect.value.time == millis && effect.value.rssi == info.rssi
      && effect.value.power == PowerAfter(ads, info.power)
    decreases |ads|
  {
    hide FieldsOf, Holds, N.WalkEffect, N.AdEffect, Ad.Encoded;
    HoldsSize(os, base + offset, ads, beacon, tail);
    if ads == [] {
      NativeLast(os, base, offset, beacon, tail, millis, info);
    } else {
      var n := |ads[0].Encoded()|;
      HoldsMore(os, base + offset, ads, beacon, tail);
      HoldsSize(os, base + offset + n, ads[1..], beacon, tail);
      var next := OtherAd(os, base + offset, n, millis, info);
      NextPower(os, base + offset, ads, beacon, tail, info.power, next.power);
      NativeWalk(os, base, offset + n, length, ads[1..], beacon, tail, millis, next);
      NativeStep(os, base, offset, length, millis, info, next);
    }
  }

  /** A structure that is not manufacturer data, and is followed by something, changes at most the power. */
  lemma OtherAd(os: Octets, pos: nat, n: nat, millis: int, info: N.Info) returns (next: N.Info)
    requires 0 < n && pos + n < |os| && os[pos] == n - 1 && (n > 1 ==> os[pos + 1] != MANUFACTURER_DATA)
    ensures N.AdEffect(os, pos, millis, info) == Some(next) && next.rssi == info.rssi
    ensures next.power == if n > 1 && os[pos + 1] == TX_POWER && pos + 2 < |os| then os[pos + 2] else info.power
  {
    next := N.AdEffect(os, pos, millis, info).value;
  }

  /** The power after the first structure. */
  lemma NextPower(os: Octets, pos: nat, ads: seq<ValidAd>, beacon: BeaconData, tail: Octets, power: int, next: int)
    requires Holds(os, pos, ads, beacon, tail) && ads != []
    requires pos + |ads[0].Encoded()| < |os|
    requires var n := |ads[0].Encoded()|;
      next == if n > 1 && os[pos + 1] == TX_POWER && pos + 2 < |os| then os[pos + 2] else power
    ensures PowerAfter(ads, power) == PowerAfter(ads[1..], next)
  {
    hide Holds;
    if ads[0].Structure? { HoldsBehindType(os, pos, ads, beacon, tail); }
  }

  lemma NativeStep(os: Octets, base: nat, offset: nat, length: nat, millis: int, info: N.Info, next: N.Info)
    requires offset < length && base + offset < |os| && N.AdEffect(os, base + offset, millis, info) == Some(next)
    ensures N.WalkEffect(os, base, length, offset, millis, info)
         == N.WalkEffect(os, base, length, offset + os[base + offset] + 1, millis, next)
  {
    hide N.AdEffect;
  }

  lemma NativeLast(os: Octets, base: nat, offset: nat, beacon: BeaconData, tail: Octets, millis: int, info: N.Info)
    requires Holds(os, base + offset, [], beacon, tail)
    ensures N.WalkEffect(os, base, offset + 27, offset, millis, info)
         == Some(N.WithBeacon(info, FieldsOf(beacon), millis))
  {
    HoldsBeacon(os, base + offset, beacon, tail);
    var pos := base + offset;
    var next := N.WithBeacon(info, FieldsOf(beacon), millis);
    assert N.AdEffect(os, pos, millis, info) == Some(next);
    assert N.WalkEffect(os, base, offset + 27, offset + 27, millis, next) == Some(next);
  }

  /** The byte decoder on a whole frame. */
  lemma NativeDecodes(r: Report, millis: int)
    requires r.Valid()
    ensures var effect := N.FrameEffect(r.Frame(), millis);
      effect.Some? && effect.value.Beacon() == FieldsOf(r.beacon)
      && effect.value.rssi == ToInt8(r.rssi) && effect.value.time == millis
      && effect.value.power == PowerAfter(r.ads, 0)
  {
    var os := r.Frame();
    FrameLayout(r);
    NativeWalk(os, AD_START, 0, |Payload(r.ads, r.beacon)|, r.ads, r.beacon, [r.rssi], millis, N.NO_INFO);
    var walked := N.WalkEffect(os, AD_START, os[13], 0, millis, N.NO_INFO).value;
    assert N.ReportsEffect(os, 0, |os|, millis, walked.(rssi := ToInt8(r.rssi))).Some?;
  }

  lemma FrameLayout(r: Report)
    requires r.Valid()
    ensures var os := r.Frame();
      && Holds(os, AD_START, r.ads, r.beacon, [r.rssi])
      && os[0] == 0x04 && os[1] == 0x3E && os[3] == 0x02 && os[4] == 1
      && |os| == AD_START + |Payload(r.ads, r.beacon)| + 1 && os[13] == |Payload(r.ads, r.beacon)|
      && os[|os| - 1] == r.rssi
  {
  }

  /** The text decoder steps over a structure that is not manufacturer data. */
  lemma TextStep(os: Octets, pos: nat, ads: seq<ValidAd>, beacon: BeaconData, tail: Octets)
    requires Holds(os, pos, ads, beacon, tail) && tail != [] && |Payload(ads, beacon)| <= 243 && ads != []
    ensures var text := PacketText(os);
      GoesOn(text, 3 * pos + 2) && NextIndex(text, 3 * pos + 2) == 3 * (pos + |ads[0].Encoded()|) + 2
  {
    hide At, PacketText, Holds, Payload, Ad.Encoded;
    StructureOctets(os, pos, ads, beacon, tail);
    PacketAt(os, pos);
    PacketAt(os, pos + 1);
  }

  lemma StructureOctets(os: Octets, pos: nat, ads: seq<ValidAd>, beacon: BeaconData, tail: Octets)
    requires Holds(os, pos, ads, beacon, tail) && tail != [] && |Payload(ads, beacon)| <= 243 && ads != []
    ensures pos + 1 < |os| && os[pos] == |ads[0].Encoded()| - 1 && os[pos + 1] != 0xFF
  {
    hide Holds, Ad.Encoded, Payload, Encode;
    var n := |ads[0].Encoded()|;
    HoldsSize(os, pos, ads, beacon, tail);
    HoldsMore(os, pos, ads, beacon, tail);
    HoldsSize(os, pos + n, ads[1..], beacon, tail);
    NextIsNotFF(os, pos + n, ads[1..], beacon, tail);
  }

  /** It stops at the manufacturer data. */
  lemma TextStop(os: Octets, pos: nat, beacon: BeaconData, tail: Octets)
    requires Holds(os, pos, [], beacon, tail)
    ensures var text := PacketText(os); Readable(text, 3 * pos + 2) && !GoesOn(text, 3 * pos + 2)
  {
    hide At, PacketText, Holds;
    HoldsBeacon(os, pos, beacon, tail);
    PacketAt(os, pos + 1);
  }

  /** The text decoder's walk stops at the columns of the manufacturer data. A padding octet is walked
      over as a structure of length zero whose type is the next octet, which is never 0xFF. */
  lemma {:induction false} TextWalk(os: Octets, pos: nat, ads: seq<ValidAd>, beacon: BeaconData, tail: Octets)
    requires Holds(os, pos, ads, beacon, tail) && tail != [] && |Payload(ads, beacon)| <= 243
    ensures WalkWithin(PacketText(os), 3 * pos + 2, |ads|) == 3 * (pos + |Encode(ads)|) + 2
    decreases |ads|
  {
    hide At, PacketText, Holds, GoesOn, NextIndex;
    if ads == [] {
      TextStop(os, pos, beacon, tail);
    } else {
      var n := |ads[0].Encoded()|;
      TextStep(os, pos, ads, beacon, tail);
      HoldsMore(os, pos, ads, beacon, tail);
      RestIsShorter(ads, beacon);
      TextWalk(os, pos + n, ads[1..], beacon, tail);
      StepFirst(PacketText(os), 3 * pos + 2, |ads|);
    }
  }

  lemma StepFirst(packet: string, index: int, n: nat)
    requires n > 0 && GoesOn(packet, index)
    ensures WalkWithin(packet, index, n) == WalkWithin(packet, NextIndex(packet, index), n - 1)
  {
  }

  lemma RestIsShorter(ads: seq<ValidAd>, beacon: BeaconData)
    requires ads != []
    ensures |Payload(ads[1..], beacon)| <= |Payload(ads, beacon)|
  {
  }

  /** Each structure takes an octet at least. */
  lemma {:induction false} StructuresFit(ads: seq<ValidAd>)
    ensures |ads| <= |Encode(ads)|
    decreases |ads|
  {
    if ads != [] {
      EncodedShape(ads[0]);
      StructuresFit(ads[1..]);
    }
  }

  lemma NextIsNotFF(os: Octets, pos: nat, ads: seq<ValidAd>, beacon: BeaconData, tail: Octets)
    requires Holds(os, pos, ads, beacon, tail) && |Payload(ads, beacon)| <= 243
    ensures os[pos] != 0xFF
  {
    HoldsSize(os, pos, ads, beacon, tail);
    if ads == [] { HoldsBeacon(os, pos, beacon, tail); } else { HoldsMore(os, pos, ads, beacon, tail); }
  }

  /** The columns behind the manufacturer data's type give the beacon and the signal strength. */
  lemma TextReads(os: Octets, pos: nat, beacon: BeaconData, rssi: uint8)
    requires |os| == pos + 26 && os[pos..pos + 25] == beacon && os[pos + 25] == rssi
    ensures ReadColumns(PacketText(os), 3 * pos + 2) == Parsed(FieldsOf(beacon), rssi as int - 256)
  {
    hide At;
    var text := PacketText(os);
    forall i | 0 <= i < 26 ensures |text| == 3 * |os| + 1 && At(text, 3 * pos + 2 + 3 * i) == os[pos + i] {
      PacketAt(os, pos + i);
    }
    forall i | 0 <= i < 25 ensures os[pos + i] == beacon[i] {
      assert os[pos..pos + 25][i] == beacon[i];
    }
    assert At(text, 3 * pos + 2 + 3 * 0) == beacon[0] && At(text, 3 * pos + 2 + 3 * 1) == beacon[1];
    assert At(text, 3 * pos + 2 + 3 * 2) == beacon[2] && At(text, 3 * pos + 2 + 3 * 3) == beacon[3];
    assert At(text, 3 * pos + 2 + 3 * 20) == beacon[20] && At(text, 3 * pos + 2 + 3 * 21) == beacon[21];
    assert At(text, 3 * pos + 2 + 3 * 22) == beacon[22] && At(text, 3 * pos + 2 + 3 * 23) == beacon[23];
    assert At(text, 3 * pos + 2 + 3 * 24) == beacon[24] && At(text, 3 * pos + 2 + 3 * 25) == rssi;
    UuidColumns(os, pos, beacon);
  }

  lemma UuidColumns(os: Octets, pos: nat, beacon: BeaconData)
    requires |os| == pos + 26 && os[pos..pos + 25] == beacon
    ensures var index := 3 * pos + 14;
      && index + 48 <= |PacketText(os)|
      && DropSpaces(PacketText(os)[index..index + 48]) == HexString(beacon[4..20])
  {
    hide Columns, HexString, DropSpaces;
    ColumnsSlice(os, pos + 4, 16);
    ColumnsDigits(os[pos + 4..pos + 20]);
    ConcatParts("> ", Columns(os));
    DropSlice(PacketText(os), 2, 3 * pos + 12, 3 * pos + 60);
    SliceSlice(os, pos, pos + 25, 4, 20);
  }

  lemma WalkReachesBeacon(r: Report)
    requires r.Valid()
    ensures Walk(PacketText(r.Frame()), START) == 3 * (AD_START + |Encode(r.ads)|) + 2
  {
    hide At, PacketText, WalkWithin;
    var os := r.Frame();
    FrameLayout(r);
    TextWalk(os, AD_START, r.ads, r.beacon, [r.rssi]);
    StructuresFit(r.ads);
    PacketAt(os, 0);
    HoldsSize(os, AD_START, r.ads, r.beacon, [r.rssi]);
    WalkStops(PacketText(os), START, |r.ads|, |PacketText(os)|);
  }

  /** The text decoder on the packet text of a whole frame. */
  lemma TextDecodes(r: Report)
    requires r.Valid()
    ensures DecodeText(PacketText(r.Frame())) == Parsed(FieldsOf(r.beacon), r.rssi as int - 256)
  {
    hide At, Holds, WalkWithin;
    var os := r.Frame();
    FrameLayout(r);
    WalkReachesBeacon(r);
    HoldsEnd(os, AD_START, r.ads, r.beacon, [r.rssi]);
    var end := AD_START + |Encode(r.ads)|;
    HoldsBeacon(os, end, r.beacon, [r.rssi]);
    assert os[end + 27] == os[end + 27..][0];
    TextReads(os, end + 2, r.beacon, r.rssi);
  }

  lemma HoldsEnd(os: Octets, pos: nat, ads: seq<ValidAd>, beacon: BeaconData, tail: Octets)
    requires Holds(os, pos, ads, beacon, tail)
    ensures Holds(os, pos + |Encode(ads)|, [], beacon, tail)
  {
    var last := [0x1A, MANUFACTURER_DATA] + beacon;
    ConcatAssoc(Encode(ads), last, tail);
    DropParts(os, pos, Encode(ads), last + tail);
    assert Payload([], beacon) == last;
  }

  /** Both decoders return the same beacon; they return the same signal strength exactly when its octet is
      negative in two's complement, as the text decoder takes every octet to be. */
  lemma DecodersAgree(r: Report, millis: int)
    requires r.Valid()
    ensures var native, text := N.FrameEffect(r.Frame(), millis), DecodeText(PacketText(r.Frame()));
      && native.Some? && text.Parsed?
      && native.value.Beacon() == text.beacon
      && (native.value.rssi == text.rssi <==> r.rssi >= 0x80)
  {
    NativeDecodes(r, millis);
    TextDecodes(r);
    SignedOctet(r.rssi);
  }

  lemma SignedOctet(o: uint8)
    ensures ToInt8(o) == if o >= 0x80 then o as int - 256 else o
  {
  }
}
