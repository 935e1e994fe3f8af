/**
 What one enumeration pass issues, stated against the GATT tree without
 reference to the order of the walk: which calls occur (in terms of how far
 the walk gets into the tree), in which order, how far each failure reaches,
 and which library outcomes cannot change the pass at all.
 */
module PassProperties {
  import opened Gatt
  import opened Enumeration

  // ---------------------------------------------------------------------------
  // How far the walk gets into the tree
  // ---------------------------------------------------------------------------

  /** Service discovery succeeded and listed a service at position `i`. */
  predicate ServiceReached(p: Peripheral, i: nat) {
    p.services.Found? && i < |p.services.items|
  }

  function ServiceAt(p: Peripheral, i: nat): Service
    requires ServiceReached(p, i)
  {
    p.services.items[i]
  }

  /** Service `i` is reached and its characteristic discovery listed a characteristic at position `j`. */
  predicate CharacteristicReached(p: Peripheral, i: nat, j: nat) {
    && ServiceReached(p, i)
    && ServiceAt(p, i).characteristics.Found?
    && j < |ServiceAt(p, i).characteristics.items|
  }

  function CharacteristicAt(p: Peripheral, i: nat, j: nat): Characteristic
    requires CharacteristicReached(p, i, j)
  {
    ServiceAt(p, i).characteristics.items[j]
  }

  /** The characteristic was not read, or its read succeeded. */
  predicate ReadPassed(c: Characteristic) {
    !Readable(c.properties) || c.read == Succeeds
  }

  /** Characteristic (i, j) is reached, got past its read, and its descriptor discovery succeeded. */
  predicate DescriptorsListed(p: Peripheral, i: nat, j: nat) {
    && CharacteristicReached(p, i, j)
    && ReadPassed(CharacteristicAt(p, i, j))
    && CharacteristicAt(p, i, j).descriptors.Found?
  }

  // ---------------------------------------------------------------------------
  // Membership through the levels of the walk
  // ---------------------------------------------------------------------------

  lemma {:induction false} InCharacteristicsFrom(i: nat, cs: seq<Characteristic>, j: nat, x: Call)
    requires x.OnCharacteristic()
    ensures x in CharacteristicsFrom(i, cs, j)
        <==> x.svc == i && j <= x.chr < |cs| && x in CharacteristicCalls(i, x.chr, cs[x.chr])
    decreases |cs| - j
  {
    if j < |cs| {
      InCharacteristicsFrom(i, cs, j + 1, x);
      var head := CharacteristicCalls(i, j, cs[j]);
      var tail := CharacteristicsFrom(i, cs, j + 1);
      assert CharacteristicsFrom(i, cs, j) == head + tail;
      if x in head {
        var k :| 0 <= k < |head| && head[k] == x;
      }
    }
  }

  lemma {:induction false} InServicesFrom(ss: seq<Service>, i: nat, x: Call)
    requires x.OnService()
    ensures x in ServicesFrom(ss, i) <==> i <= x.svc < |ss| && x in ServiceCalls(x.svc, ss[x.svc])
    decreases |ss| - i
  {
    if i < |ss| {
      InServicesFrom(ss, i + 1, x);
      var head := ServiceCalls(i, ss[i]);
      var tail := ServicesFrom(ss, i + 1);
      assert ServicesFrom(ss, i) == head + tail;
      if x in head {
        var k :| 0 <= k < |head| && head[k] == x;
      }
    }
  }

  lemma InService(i: nat, s: Service, x: Call)
    requires x.OnCharacteristic()
    ensures x in ServiceCalls(i, s)
        <==> && x.svc == i
             && s.characteristics.Found?
             && x.chr < |s.characteristics.items|
             && x in CharacteristicCalls(i, x.chr, s.characteristics.items[x.chr])
  {
    if s.characteristics.Found? {
      InCharacteristicsFrom(i, s.characteristics.items, 0, x);
    }
  }

  /** A call about service `x.svc` occurs in a pass exactly when that service is reached and its own calls contain it. */
  lemma InPass(p: Peripheral, x: Call)
    requires x.OnService()
    ensures x in Pass(p) <==> ServiceReached(p, x.svc) && x in ServiceCalls(x.svc, ServiceAt(p, x.svc))
  {
    if p.services.Found? {
      InServicesFrom(p.services.items, 0, x);
    }
    assert Pass(p) == Walk(p) + [CancelConnection(p.id)];
  }

  /** A call about characteristic (x.svc, x.chr) occurs in a pass exactly when that characteristic is reached and its own calls contain it. */
  lemma InPassCharacteristic(p: Peripheral, x: Call)
    requires x.OnCharacteristic()
    ensures x in Pass(p)
        <==> CharacteristicReached(p, x.svc, x.chr) && x in CharacteristicCalls(x.svc, x.chr, CharacteristicAt(p, x.svc, x.chr))
  {
    InPass(p, x);
    if ServiceReached(p, x.svc) {
      InService(x.svc, ServiceAt(p, x.svc), x);
    }
  }

  // ---------------------------------------------------------------------------
  // Which calls a pass issues
  // ---------------------------------------------------------------------------

  /** Characteristics of service `i` are discovered exactly when service discovery listed service `i`. */
  lemma CharacteristicDiscoveryIssued(p: Peripheral, i: nat)
    ensures DiscoverCharacteristics(i) in Pass(p) <==> ServiceReached(p, i)
  {
    InPass(p, DiscoverCharacteristics(i));
  }

  /** A characteristic is read exactly when it is reached and its properties include CharRead. */
  lemma CharacteristicReadIssued(p: Peripheral, i: nat, j: nat)
    ensures ReadCharacteristic(i, j) in Pass(p)
        <==> CharacteristicReached(p, i, j) && Readable(CharacteristicAt(p, i, j).properties)
  {
    InPassCharacteristic(p, ReadCharacteristic(i, j));
  }

  /** A characteristic's descriptors are discovered exactly when it is reached and its own read, if any, succeeded. */
  lemma DescriptorDiscoveryIssued(p: Peripheral, i: nat, j: nat)
    ensures DiscoverDescriptors(i, j) in Pass(p)
        <==> CharacteristicReached(p, i, j) && ReadPassed(CharacteristicAt(p, i, j))
  {
    InPassCharacteristic(p, DiscoverDescriptors(i, j));
  }

  /** Descriptor `k` is read exactly when its characteristic's descriptor discovery was issued, succeeded and listed it. */
  lemma DescriptorReadIssued(p: Peripheral, i: nat, j: nat, k: nat)
    ensures ReadDescriptor(i, j, k) in Pass(p)
        <==> DescriptorsListed(p, i, j) && k < |CharacteristicAt(p, i, j).descriptors.items|
  {
    var x := ReadDescriptor(i, j, k);
    InPassCharacteristic(p, x);
    if CharacteristicReached(p, i, j) {
      var c := CharacteristicAt(p, i, j);
      if DescriptorsListed(p, i, j) && k < |c.descriptors.items| {
        assert DescriptorCalls(i, j, |c.descriptors.items|, Subscribable(c.properties))[k] == x;
      }
    }
  }

  /**
   A characteristic is subscribed to exactly when its descriptors were listed
   and its properties include CharNotify or CharIndicate.
   */
  lemma SubscribeIssued(p: Peripheral, i: nat, j: nat)
    ensures SetNotifyValue(i, j) in Pass(p)
        <==> DescriptorsListed(p, i, j) && Subscribable(CharacteristicAt(p, i, j).properties)
  {
    var x := SetNotifyValue(i, j);
    InPassCharacteristic(p, x);
    if DescriptorsListed(p, i, j) && Subscribable(CharacteristicAt(p, i, j).properties) {
      var c := CharacteristicAt(p, i, j);
      var tail := DescriptorCalls(i, j, |c.descriptors.items|, true);
      assert tail[|tail| - 1] == x;
    }
  }

  // ---------------------------------------------------------------------------
  // How far a failure reaches
  // ---------------------------------------------------------------------------

  /**
   A failed characteristic discovery for service `i` leaves the discovery as
   the only call about service `i`, and every later service is still walked.
   */
  lemma CharacteristicDiscoveryFailureIsLocal(p: Peripheral, i: nat)
    requires ServiceReached(p, i) && ServiceAt(p, i).characteristics.Failed?
    ensures forall x :: x in Pass(p) && x.OnService() && x.svc == i ==> x == DiscoverCharacteristics(i)
    ensures forall n :: i < n < |p.services.items| ==> DiscoverCharacteristics(n) in Pass(p)
  {
    forall x | x in Pass(p) && x.OnService() && x.svc == i
      ensures x == DiscoverCharacteristics(i)
    {
      InPass(p, x);
      if x.OnCharacteristic() {
        InService(i, ServiceAt(p, i), x);
      }
    }
    forall n | i < n < |p.services.items|
      ensures DiscoverCharacteristics(n) in Pass(p)
    {
      CharacteristicDiscoveryIssued(p, n);
    }
  }

  /**
   A failed read of a readable characteristic leaves that read as the only
   call about the characteristic: no descriptor discovery, descriptor read or
   subscribe follows for it.
   */
  lemma FailedReadSkipsRestOfCharacteristic(p: Peripheral, i: nat, j: nat)
    requires CharacteristicReached(p, i, j)
    requires Readable(CharacteristicAt(p, i, j).properties) && CharacteristicAt(p, i, j).read == Fails
    ensures ReadCharacteristic(i, j) in Pass(p)
    ensures forall x :: x in Pass(p) && x.OnCharacteristic() && x.svc == i && x.chr == j ==> x == ReadCharacteristic(i, j)
  {
    CharacteristicReadIssued(p, i, j);
    forall x | x in Pass(p) && x.OnCharacteristic() && x.svc == i && x.chr == j
      ensures x == ReadCharacteristic(i, j)
    {
      InPassCharacteristic(p, x);
    }
  }

  /**
   A failed descriptor discovery leaves the characteristic's read (if any)
   and the discovery itself as its only calls: no descriptor read and no
   subscribe follows for it.
   */
  lemma FailedDescriptorDiscoverySkipsReadsAndSubscribe(p: Peripheral, i: nat, j: nat)
    requires CharacteristicReached(p, i, j) && ReadPassed(CharacteristicAt(p, i, j))
    requires CharacteristicAt(p, i, j).descriptors.Failed?
    ensures DiscoverDescriptors(i, j) in Pass(p)
    ensures forall x :: (x in Pass(p) && x.OnCharacteristic() && x.svc == i && x.chr == j
                         ==> x == ReadCharacteristic(i, j) || x == DiscoverDescriptors(i, j))
  {
    DescriptorDiscoveryIssued(p, i, j);
    forall x | x in Pass(p) && x.OnCharacteristic() && x.svc == i && x.chr == j
      ensures x == ReadCharacteristic(i, j) || x == DiscoverDescriptors(i, j)
    {
      InPassCharacteristic(p, x);
    }
  }

  /**
   Every reached characteristic is visited, whatever happened to the
   characteristics before it: its first call (the read when it is readable,
   the descriptor discovery otherwise) occurs.
   */
  lemma EveryReachedCharacteristicIsVisited(p: Peripheral, i: nat, j: nat)
    requires CharacteristicReached(p, i, j)
    ensures Readable(CharacteristicAt(p, i, j).properties) ==> ReadCharacteristic(i, j) in Pass(p)
    ensures !Readable(CharacteristicAt(p, i, j).properties) ==> DiscoverDescriptors(i, j) in Pass(p)
  {
    CharacteristicReadIssued(p, i, j);
    DescriptorDiscoveryIssued(p, i, j);
  }

  // ---------------------------------------------------------------------------
  // Order
  // ---------------------------------------------------------------------------

  /**
   Position in the pass agrees with depth-first discovery order: of two
   calls before the cancel, the earlier one is exactly the one that comes
   first in the walk (service, then characteristic, then read, descriptor
   discovery, descriptor reads by position, subscribe).
   */
  lemma PassFollowsDepthFirstOrder(p: Peripheral, a: nat, b: nat)
    requires a < |Pass(p)| - 1 && b < |Pass(p)| - 1
    ensures a < b <==> Before(Pass(p)[a], Pass(p)[b])
  {
    var r := Pass(p);
    var w := r[..|r| - 1];
    assert w[a] == r[a] && w[b] == r[b];
    if b < a {
      assert Before(w[b], w[a]);
    }
  }

  /** Every call about service `i` comes before every call about a later service. */
  lemma ServicesInDiscoveryOrder(p: Peripheral, a: nat, b: nat)
    requires a < |Pass(p)| && b < |Pass(p)|
    requires Pass(p)[a].OnService() && Pass(p)[b].OnService()
    requires Pass(p)[a].svc < Pass(p)[b].svc
    ensures a < b
  {
    PassFollowsDepthFirstOrder(p, a, b);
  }

  /**
   No call occurs twice in a pass: each read, descriptor discovery and
   subscribe the walk reaches is issued exactly once.
   */
  lemma NoCallRepeats(p: Peripheral, a: nat, b: nat)
    requires a < b < |Pass(p)|
    ensures Pass(p)[a] != Pass(p)[b]
  {
    var r := Pass(p);
    if b < |r| - 1 {
      PassFollowsDepthFirstOrder(p, a, b);
    } else {
      assert r[a].IsEnumeration();
    }
  }

  // ---------------------------------------------------------------------------
  // Outcomes that cannot change a pass
  // ---------------------------------------------------------------------------

  /**
   Two characteristics on which the walk takes the same decisions: same
   properties, same read outcome, and descriptor discovery failing for both
   or listing equally many descriptors. Descriptor read outcomes, the
   subscribe outcome and UUIDs may differ.
   */
  predicate SameCharacteristicDecisions(c: Characteristic, d: Characteristic) {
    && c.properties == d.properties
    && c.read == d.read
    && c.descriptors.Found? == d.descriptors.Found?
    && (c.descriptors.Found? ==> |c.descriptors.items| == |d.descriptors.items|)
  }

  predicate SameCharacteristicsDecisions(cs: seq<Characteristic>, ds: seq<Characteristic>) {
    |cs| == |ds| && forall k :: 0 <= k < |cs| ==> SameCharacteristicDecisions(cs[k], ds[k])
  }

  predicate SameServiceDecisions(s: Service, t: Service) {
    && s.characteristics.Found? == t.characteristics.Found?
    && (s.characteristics.Found? ==> SameCharacteristicsDecisions(s.characteristics.items, t.characteristics.items))
  }

  /** Two peripherals on which every decision of the walk comes out the same. */
  predicate SameDecisions(p: Peripheral, q: Peripheral) {
    && p.id == q.id
    && p.services.Found? == q.services.Found?
    && (p.services.Found? ==>
          && |p.services.items| == |q.services.items|
          && forall k :: 0 <= k < |p.services.items| ==> SameServiceDecisions(p.services.items[k], q.services.items[k]))
  }

  lemma {:induction false} CharacteristicsFromDecisions(i: nat, cs: seq<Characteristic>, ds: seq<Characteristic>, j: nat)
    requires SameCharacteristicsDecisions(cs, ds)
    ensures CharacteristicsFrom(i, cs, j) == CharacteristicsFrom(i, ds, j)
    decreases |cs| - j
  {
    if j < |cs| {
      CharacteristicsFromDecisions(i, cs, ds, j + 1);
      assert SameCharacteristicDecisions(cs[j], ds[j]);
    }
  }

  lemma {:induction false} ServicesFromDecisions(ss: seq<Service>, ts: seq<Service>, i: nat)
    requires |ss| == |ts| && forall k :: 0 <= k < |ss| ==> SameServiceDecisions(ss[k], ts[k])
    ensures ServicesFrom(ss, i) == ServicesFrom(ts, i)
    decreases |ss| - i
  {
    if i < |ss| {
      ServicesFromDecisions(ss, ts, i + 1);
      assert SameServiceDecisions(ss[i], ts[i]);
      if ss[i].characteristics.Found? {
        CharacteristicsFromDecisions(i, ss[i].characteristics.items, ts[i].characteristics.items, 0);
      }
    }
  }

  /**
   Failed descriptor reads and failed subscribes leave the pass unchanged:
   the `continue` after a failed descriptor read skips only the print of its
   value, and the one after a failed subscribe ends an iteration that has
   nothing left to do. Only the outcomes of service, characteristic and descriptor
   discovery and of characteristic reads shape the pass.
   */
  lemma PassDependsOnlyOnDecisions(p: Peripheral, q: Peripheral)
    requires SameDecisions(p, q)
    ensures Pass(p) == Pass(q)
  {
    if p.services.Found? {
      ServicesFromDecisions(p.services.items, q.services.items, 0);
    }
  }

  // ---------------------------------------------------------------------------
  // Worked scenarios
  // ---------------------------------------------------------------------------

  /**
   One service holding one readable, notifiable characteristic with two
   descriptors: the whole hierarchy is walked in order and the connection is
   cancelled at the end.
   */
  lemma ReadableNotifiableScenario(id: string)
    ensures
      var d := Descriptor([], Succeeds);
      var c := Characteristic([], CharRead | CharNotify, Succeeds, Found([d, d]), Succeeds);
      Pass(Peripheral(id, Found([Service([], Found([c]))])))
      == [DiscoverServices, DiscoverCharacteristics(0), ReadCharacteristic(0, 0), DiscoverDescriptors(0, 0),
          ReadDescriptor(0, 0, 0), ReadDescriptor(0, 0, 1), SetNotifyValue(0, 0), CancelConnection(id)]
  {
    var d := Descriptor([], Succeeds);
    var c := Characteristic([], CharRead | CharNotify, Succeeds, Found([d, d]), Succeeds);
    var calls := [ReadCharacteristic(0, 0), DiscoverDescriptors(0, 0), ReadDescriptor(0, 0, 0), ReadDescriptor(0, 0, 1), SetNotifyValue(0, 0)];
    assert DescriptorCalls(0, 0, 2, true) == calls[2..];
    assert CharacteristicCalls(0, 0, c) == calls;
    assert CharacteristicsFrom(0, [c], 0) == calls;
    assert ServicesFrom([Service([], Found([c]))], 0) == [DiscoverCharacteristics(0)] + calls;
  }

  /**
   Two services whose second fails characteristic discovery: the first is
   walked fully, the second gets only its discovery call, and the connection
   is still cancelled at the end.
   */
  lemma SecondServiceFailsScenario(id: string)
    ensures
      var c := Characteristic([], 0, Succeeds, Found([]), Succeeds);
      Pass(Peripheral(id, Found([Service([], Found([c])), Service([], Failed)])))
      == [DiscoverServices, DiscoverCharacteristics(0), DiscoverDescriptors(0, 0),
          DiscoverCharacteristics(1), CancelConnection(id)]
  {
    var c := Characteristic([], 0, Succeeds, Found([]), Succeeds);
    assert CharacteristicCalls(0, 0, c) == [DiscoverDescriptors(0, 0)];
  }
}
