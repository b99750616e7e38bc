/** What the consumer thread of src2/BeaconEventConsumer.cpp does with a bucket: it numbers the records and
    publishes or batches them. */
module Consumer {
  import opened EventsWindow

  datatype Beacon = Beacon(scannerID: string, info: BeaconInfo, heartbeat: bool, sequenceNo: int)

  /** Records in the order of a bucket, numbered from `start` on. */
  function Numbered(scannerID: string, infos: seq<BeaconInfo>, start: int): (bs: seq<Beacon>)
    ensures |bs| == |infos|
    ensures forall i :: 0 <= i < |bs| ==> bs[i] == Beacon(scannerID, infos[i], infos[i].isHeartbeat, start + i)
  {
    if infos == [] then [] else
    [Beacon(scannerID, infos[0], infos[0].isHeartbeat, start)] + Numbered(scannerID, infos[1..], start + 1)
  }

  lemma NumberedConcat(scannerID: string, a: seq<BeaconInfo>, b: seq<BeaconInfo>, start: int)
    ensures Numbered(scannerID, a + b, start) == Numbered(scannerID, a, start) + Numbered(scannerID, b, start + |a|)
  {
    hide Numbered;
    var both := Numbered(scannerID, a + b, start);
    var parts := Numbered(scannerID, a, start) + Numbered(scannerID, b, start + |a|);
    forall i | 0 <= i < |a| + |b| ensures both[i] == parts[i] {
      assert (a + b)[i] == if i < |a| then a[i] else b[i - |a|];
    }
  }

  /** The beacons that are published at once: all of them, or all but the heartbeats. */
  function Published(beacons: seq<Beacon>, skipHeartbeat: bool): seq<Beacon> {
    if beacons == [] then [] else
    (if beacons[0].heartbeat && skipHeartbeat then [] else [beacons[0]]) + Published(beacons[1..], skipHeartbeat)
  }

  lemma {:induction false} PublishedConcat(a: seq<Beacon>, b: seq<Beacon>, skip: bool)
    ensures Published(a + b, skip) == Published(a, skip) + Published(b, skip)
  {
    if a == [] {
      assert a + b == b;
    } else {
      assert (a + b)[1..] == a[1..] + b;
      PublishedConcat(a[1..], b, skip);
    }
  }

  lemma PublishedMore(beacons: seq<Beacon>, b: Beacon, skip: bool)
    ensures Published(beacons + [b], skip) == Published(beacons, skip) + (if b.heartbeat && skip then [] else [b])
  {
    PublishedConcat(beacons, [b], skip);
    assert [b][1..] == [];
  }

  predicate Consecutive(beacons: seq<Beacon>, start: int) {
    forall i :: 0 <= i < |beacons| ==> beacons[i].sequenceNo == start + i
  }

  predicate Ascending(beacons: seq<Beacon>) {
    forall i, j :: 0 <= i < j < |beacons| ==> beacons[i].sequenceNo < beacons[j].sequenceNo
  }

  /** Without skipping, the k-th beacon published carries the number k. */
  lemma {:induction false} PublishedAll(beacons: seq<Beacon>)
    ensures Published(beacons, false) == beacons
  {
    if beacons != [] { PublishedAll(beacons[1..]); }
  }

  predicate HasNumber(beacons: seq<Beacon>, n: int) {
    beacons != [] && (beacons[0].sequenceNo == n || HasNumber(beacons[1..], n))
  }

  /** With skipping, the numbers ascend and the missing ones are exactly those of the heartbeats. */
  lemma {:induction false} PublishedGaps(beacons: seq<Beacon>, start: int, n: int)
    requires Consecutive(beacons, start)
    ensures Ascending(Published(beacons, true))
    ensures forall i :: 0 <= i < |Published(beacons, true)| ==> Published(beacons, true)[i].sequenceNo >= start
    ensures HasNumber(Published(beacons, true), n)
       <==> start <= n < start + |beacons| && !beacons[n - start].heartbeat
  {
    if beacons != [] {
      PublishedGaps(beacons[1..], start + 1, n);
      var rest, all := Published(beacons[1..], true), Published(beacons, true);
      if beacons[0].heartbeat {
        assert all == rest;
      } else {
        assert all == [beacons[0]] + rest && all[1..] == rest;
      }
    }
  }

  /** A heartbeat stays in a batch unless the next beacon is a heartbeat as well. */
  predicate Kept(beacons: seq<Beacon>, i: int)
    requires 0 <= i < |beacons|
  {
    !(beacons[i].heartbeat && i + 1 < |beacons| && beacons[i + 1].heartbeat)
  }

  /** The batch that a stream of beacons leaves. */
  function Collapse(beacons: seq<Beacon>): (batch: seq<Beacon>) {
    if beacons == [] then [] else (if Kept(beacons, 0) then [beacons[0]] else []) + Collapse(beacons[1..])
  }

  lemma {:induction false} CollapseLast(beacons: seq<Beacon>)
    requires beacons != []
    ensures Collapse(beacons) != [] && Collapse(beacons)[|Collapse(beacons)| - 1] == beacons[|beacons| - 1]
  {
    if |beacons| > 1 { CollapseLast(beacons[1..]); }
  }

  /** The batch that a beacon is appended to: without its last beacon, if both are heartbeats. */
  function WithoutLastHeartbeat(batch: seq<Beacon>, b: Beacon): seq<Beacon> {
    if b.heartbeat && batch != [] && batch[|batch| - 1].heartbeat then batch[..|batch| - 1] else batch
  }

  /** Appending to the batch in place does the same: a heartbeat replaces a heartbeat at the end. */
  lemma {:induction false} CollapseMore(beacons: seq<Beacon>, b: Beacon)
    ensures Collapse(beacons + [b]) == WithoutLastHeartbeat(Collapse(beacons), b) + [b]
  {
    if beacons == [] {
      assert Collapse([b]) == [b] by { assert [b][1..] == []; }
    } else {
      var head, rest := (if Kept(beacons, 0) then [beacons[0]] else []), beacons[1..];
      assert (beacons + [b])[1..] == rest + [b];
      CollapseMore(rest, b);
      if rest == [] {
        CollapseTwo(beacons[0], b);
        assert beacons == [beacons[0]];
      } else {
        CollapseLast(rest);
        assert Kept(beacons + [b], 0) == Kept(beacons, 0);
        WithoutLastOfConcat(head, Collapse(rest), b);
      }
    }
  }

  lemma WithoutLastOfConcat(head: seq<Beacon>, rest: seq<Beacon>, b: Beacon)
    requires rest != []
    ensures WithoutLastHeartbeat(head + rest, b) + [b] == head + (WithoutLastHeartbeat(rest, b) + [b])
  {
  }

  lemma CollapseTwo(a: Beacon, b: Beacon)
    ensures Collapse([a]) == [a]
    ensures Collapse([a] + [b]) == WithoutLastHeartbeat([a], b) + [b]
  {
    assert [a][1..] == [] && [b][1..] == [] && ([a] + [b])[1..] == [b];
    assert Collapse([b]) == [b];
  }

  /** A batch holds exactly the beacons that are no heartbeat directly followed by another heartbeat. */
  lemma {:induction false} CollapseNumbers(beacons: seq<Beacon>, start: int, n: int)
    requires Consecutive(beacons, start)
    ensures HasNumber(Collapse(beacons), n) <==>
      && start <= n < start + |beacons|
      && !(beacons[n - start].heartbeat && n + 1 < start + |beacons| && beacons[n + 1 - start].heartbeat)
  {
    if beacons != [] {
      CollapseNumbers(beacons[1..], start + 1, n);
      FromBehind(beacons, start, n);
      var rest, all := Collapse(beacons[1..]), Collapse(beacons);
      if Kept(beacons, 0) {
        assert all == [beacons[0]] + rest && all[1..] == rest;
      } else {
        assert all == rest;
      }
    }
  }

  lemma FromBehind(beacons: seq<Beacon>, start: int, n: int)
    requires beacons != []
    ensures start + 1 <= n < start + |beacons| ==> beacons[1..][n - (start + 1)] == beacons[n - start]
    ensures start + 1 <= n < start + |beacons| - 1 ==> beacons[1..][n + 1 - (start + 1)] == beacons[n + 1 - start]
  {
  }

  /** What is published or stays in a batch is unchanged. */
  ghost predicate FromStream(some: seq<Beacon>, beacons: seq<Beacon>, start: int) {
    forall i :: 0 <= i < |some| ==>
      start <= some[i].sequenceNo < start + |beacons| && some[i] == beacons[some[i].sequenceNo - start]
  }

  lemma FromStreamMore(some: seq<Beacon>, beacons: seq<Beacon>, start: int)
    requires beacons != [] && beacons[0].sequenceNo == start && FromStream(some, beacons[1..], start + 1)
    ensures FromStream(some, beacons, start) && FromStream([beacons[0]] + some, beacons, start)
  {
  }

  lemma {:induction false} BatchFromStream(beacons: seq<Beacon>, start: int, skip: bool)
    requires Consecutive(beacons, start)
    ensures FromStream(Collapse(beacons), beacons, start) && FromStream(Published(beacons, skip), beacons, start)
  {
    if beacons != [] {
      BatchFromStream(beacons[1..], start + 1, skip);
      FromStreamMore(Collapse(beacons[1..]), beacons, start);
      FromStreamMore(Published(beacons[1..], skip), beacons, start);
      assert Collapse(beacons) == (if Kept(beacons, 0) then [beacons[0]] else []) + Collapse(beacons[1..]);
      assert [] + Collapse(beacons[1..]) == Collapse(beacons[1..]);
      assert [] + Published(beacons[1..], skip) == Published(beacons[1..], skip);
    }
  }

  /** The numbers in a batch ascend, and no two heartbeats are neighbours. */
  lemma {:induction false} CollapseShape(beacons: seq<Beacon>, start: int)
    requires Consecutive(beacons, start)
    ensures var batch := Collapse(beacons);
      && Ascending(batch)
      && (forall i :: 0 <= i < |batch| ==> start <= batch[i].sequenceNo < start + |beacons|)
      && (forall i :: 0 <= i < |batch| - 1 ==> !(batch[i].heartbeat && batch[i + 1].heartbeat))
  {
    if beacons != [] {
      CollapseShape(beacons[1..], start + 1);
      var rest := Collapse(beacons[1..]);
      if Kept(beacons, 0) {
        assert Collapse(beacons) == [beacons[0]] + rest;
        if beacons[0].heartbeat && |beacons| > 1 { CollapseFirst(beacons[1..]); }
      }
    }
  }

  lemma {:induction false} CollapseFirst(beacons: seq<Beacon>)
    requires beacons != [] && !beacons[0].heartbeat
    ensures Collapse(beacons) != [] && !Collapse(beacons)[0].heartbeat
  {
  }

  class BeaconEventConsumer {
    const scannerID: string
    const skipHeartbeat: bool
    const batchCount: int
    /** The batch. */
    var events: seq<Beacon>
    /** The counter of the shared status information. */
    var publishEventCount: int
    /** What the publisher was given, in order. */
    var published: seq<Beacon>
    /** All beacons handled so far. */
    ghost var handled: seq<Beacon>

    /** Numbers count from zero; what was published or batched is a function of what was handled. */
    ghost predicate Valid()
      reads this
    {
      && publishEventCount == |handled| && Consecutive(handled, 0)
      && (if batchCount > 0 then published == [] && events == Collapse(handled)
          else published == Published(handled, skipHeartbeat) && events == [])
    }

    constructor (scannerID: string, skipHeartbeat: bool, batchCount: int)
      ensures Valid() && handled == []
      ensures this.scannerID == scannerID && this.skipHeartbeat == skipHeartbeat && this.batchCount == batchCount
    {
      this.scannerID, this.skipHeartbeat, this.batchCount := scannerID, skipHeartbeat, batchCount;
      events, publishEventCount, published, handled := [], 0, [], [];
    }

    method UpdatePublishEventCount() returns (id: int)
      modifies this`publishEventCount
      ensures id == old(publishEventCount) && publishEventCount == id + 1
    {
      id := publishEventCount;
      publishEventCount := publishEventCount + 1;
    }

    /** Handles the records of a bucket in the order of its minor ids. */
    method HandleMessage(bucket: seq<BeaconInfo>)
      requires Valid()
      modifies this
      ensures Valid() && handled == old(handled) + Numbered(scannerID, bucket, |old(handled)|)
    {
      hide Numbered;
      var i := 0;
      ghost var start, before := |handled|, handled;
      assert bucket[..0] == [];
      while i < |bucket|
        invariant 0 <= i <= |bucket| && Valid()
        invariant handled == before + Numbered(scannerID, bucket[..i], start)
      {
        NumberedConcat(scannerID, bucket[..i], [bucket[i]], start);
        assert bucket[..i + 1] == bucket[..i] + [bucket[i]];
        HandleRecord(bucket[i]);
        i := i + 1;
      }
      assert bucket[..i] == bucket;
    }

    method HandleRecord(info: BeaconInfo)
      requires Valid()
      modifies this
      ensures Valid() && handled == old(handled) + Numbered(scannerID, [info], |old(handled)|)
    {
      var id := UpdatePublishEventCount();
      var beacon := Beacon(scannerID, info, info.isHeartbeat, id);
      hide Collapse, Published, Numbered;
      CollapseMore(handled, beacon);
      PublishedMore(handled, beacon, skipHeartbeat);
      Deliver(beacon);
      handled := handled + [beacon];
    }

    /** Batches the beacon or publishes it. */
    method Deliver(beacon: Beacon)
      modifies this`events, this`published
      ensures batchCount > 0 ==>
        published == old(published) && events == WithoutLastHeartbeat(old(events), beacon) + [beacon]
      ensures batchCount <= 0 ==>
        && events == old(events)
        && published == old(published) + (if beacon.heartbeat && skipHeartbeat then [] else [beacon])
    {
      if batchCount > 0 {
        if beacon.heartbeat && |events| > 0 && events[|events| - 1].heartbeat {
          events := events[..|events| - 1];
        }
        events := events + [beacon];
        // a full batch would be sent here, but `shouldSendMessages` is always false
      } else if beacon.heartbeat {
        if !skipHeartbeat {
          published := published + [beacon];
        }
      } else {
        published := published + [beacon];
      }
    }
  }
}
