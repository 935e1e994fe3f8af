/**
 One enumeration pass over a connected peripheral (`enumAllTheThings`): the
 calls issued while walking its service, characteristic and descriptor tree
 depth-first in discovery order, ending with the deferred cancel of the
 connection.
 */
module Enumeration {
  import opened Gatt

  /**
   Where an enumeration call sits in a depth-first walk: the service index,
   the characteristic index (-1 for the service's own call), the step within
   the characteristic and the descriptor index.
   */
  datatype Pos = Pos(svc: int, chr: int, step: int, dsc: int)

  /** Lexicographic order on positions. */
  predicate Precedes(a: Pos, b: Pos) {
    || a.svc < b.svc
    || (a.svc == b.svc && a.chr < b.chr)
    || (a.svc == b.svc && a.chr == b.chr && a.step < b.step)
    || (a.svc == b.svc && a.chr == b.chr && a.step == b.step && a.dsc < b.dsc)
  }

  /**
   Depth-first rank of an enumeration call. Within one characteristic the
   steps are: read it, discover its descriptors, read each descriptor,
   subscribe.
   */
  function Rank(x: Call): Pos
    requires x.IsEnumeration()
  {
    match x
    case DiscoverServices => Pos(-1, -1, 0, 0)
    case DiscoverCharacteristics(i) => Pos(i, -1, 0, 0)
    case ReadCharacteristic(i, j) => Pos(i, j, 0, 0)
    case DiscoverDescriptors(i, j) => Pos(i, j, 1, 0)
    case ReadDescriptor(i, j, k) => Pos(i, j, 2, k)
    case SetNotifyValue(i, j) => Pos(i, j, 3, 0)
  }

  /** `x` comes strictly before `y` in a depth-first walk in discovery order. */
  predicate Before(x: Call, y: Call) {
    x.IsEnumeration() && y.IsEnumeration() && Precedes(Rank(x), Rank(y))
  }

  /** Every call of `r` comes strictly before every later call of `r`. */
  predicate Ordered(r: seq<Call>) {
    forall a, b :: 0 <= a < b < |r| ==> Before(r[a], r[b])
  }

  lemma OrderedAppend(r: seq<Call>, s: seq<Call>)
    requires Ordered(r) && Ordered(s)
    requires forall a, b :: 0 <= a < |r| && 0 <= b < |s| ==> Before(r[a], s[b])
    ensures Ordered(r + s)
  {
    forall a, b | 0 <= a < b < |r + s|
      ensures Before((r + s)[a], (r + s)[b])
    {
      if b < |r| {
      } else if a < |r| {
        assert (r + s)[b] == s[b - |r|];
      } else {
        assert (r + s)[a] == s[a - |r|] && (r + s)[b] == s[b - |r|];
      }
    }
  }

  /**
   Calls for characteristic `c` at position `j` of service `i` (lines 77-127
   of one loop iteration). A failed read of a readable characteristic ends
   the iteration; a failed descriptor discovery ends it before the descriptor
   reads and the subscribe. A failed descriptor read skips only the print of
   its value (line 115); a failed subscribe is the last step of the iteration.
   Neither skips a library call.
   */
  function CharacteristicCalls(i: nat, j: nat, c: Characteristic): (r: seq<Call>)
    ensures |r| > 0
    ensures forall k :: 0 <= k < |r| ==> r[k].OnCharacteristic() && r[k].svc == i && r[k].chr == j
    ensures Ordered(r)
  {
    var read := if Readable(c.properties) then [ReadCharacteristic(i, j)] else [];
    if Readable(c.properties) && c.read == Fails then read
    else
      var rest := match c.descriptors
        case Failed => []
        case Found(ds) => DescriptorCalls(i, j, |ds|, Subscribable(c.properties));
      OrderedAppend([DiscoverDescriptors(i, j)], rest);
      OrderedAppend(read, [DiscoverDescriptors(i, j)] + rest);
      read + ([DiscoverDescriptors(i, j)] + rest)
  }

  /** Reads of the `n` discovered descriptors in discovery order, then the subscribe if any. */
  function DescriptorCalls(i: nat, j: nat, n: nat, subscribe: bool): (r: seq<Call>)
    ensures forall k :: 0 <= k < |r| ==> r[k].OnCharacteristic() && r[k].svc == i && r[k].chr == j
    ensures forall k :: 0 <= k < |r| ==> Rank(r[k]).step >= 2
    ensures Ordered(r)
  {
    var descReads := seq(n, k requires 0 <= k => ReadDescriptor(i, j, k));
    var tail := if subscribe then [SetNotifyValue(i, j)] else [];
    OrderedAppend(descReads, tail);
    descReads + tail
  }

  /** Calls for the characteristics of service `i` from position `j` on, in discovery order. */
  function CharacteristicsFrom(i: nat, cs: seq<Characteristic>, j: nat): (r: seq<Call>)
    decreases |cs| - j
    ensures forall k :: 0 <= k < |r| ==> r[k].OnCharacteristic() && r[k].svc == i && j <= r[k].chr < |cs|
    ensures Ordered(r)
  {
    if j >= |cs| then []
    else
      var head := CharacteristicCalls(i, j, cs[j]);
      var tail := CharacteristicsFrom(i, cs, j + 1);
      OrderedAppend(head, tail);
      head + tail
  }

  /**
   Calls for service `s` at position `i` (lines 64-130 of one loop
   iteration): discover its characteristics, then, unless that failed, walk them.
   */
  function ServiceCalls(i: nat, s: Service): (r: seq<Call>)
    ensures |r| > 0 && r[0] == DiscoverCharacteristics(i)
    ensures forall k :: 0 <= k < |r| ==> r[k].OnService() && r[k].svc == i
    ensures Ordered(r)
  {
    var walk := match s.characteristics
      case Failed => []
      case Found(cs) => CharacteristicsFrom(i, cs, 0);
    OrderedAppend([DiscoverCharacteristics(i)], walk);
    [DiscoverCharacteristics(i)] + walk
  }

  /** Calls for the services from position `i` on, in discovery order. */
  function ServicesFrom(ss: seq<Service>, i: nat): (r: seq<Call>)
    decreases |ss| - i
    ensures forall k :: 0 <= k < |r| ==> r[k].OnService() && i <= r[k].svc < |ss|
    ensures Ordered(r)
  {
    if i >= |ss| then []
    else
      var head := ServiceCalls(i, ss[i]);
      var tail := ServicesFrom(ss, i + 1);
      OrderedAppend(head, tail);
      head + tail
  }

  /**
   The hierarchy walk of one pass, before the deferred cancel runs. The MTU
   step issues no call: line 54 takes the method value `p.SetMTU` without
   calling it. A failed service discovery returns at once.
   */
  function Walk(p: Peripheral): (r: seq<Call>)
    ensures |r| > 0 && r[0] == DiscoverServices
    ensures forall k :: 0 <= k < |r| ==> r[k].IsEnumeration()
    ensures Ordered(r)
  {
    var services := match p.services
      case Failed => []
      case Found(ss) => ServicesFrom(ss, 0);
    OrderedAppend([DiscoverServices], services);
    [DiscoverServices] + services
  }

  /**
   One whole pass: the walk followed by the CancelConnection deferred at line
   52, which runs on the early return and on normal completion alike.
   */
  function Pass(p: Peripheral): (r: seq<Call>)
    ensures |r| >= 2 && r[0] == DiscoverServices
    ensures r[|r| - 1] == CancelConnection(p.id)
    ensures forall k :: 0 <= k < |r| - 1 ==> !r[k].CancelConnection?
    ensures forall k :: 0 <= k < |r| - 1 ==> r[k].IsEnumeration()
    ensures forall k :: 0 <= k < |r| ==> !r[k].SetMtu?
    ensures Ordered(r[..|r| - 1])
    ensures p.services.Failed? ==> r == [DiscoverServices, CancelConnection(p.id)]
  {
    var walk := Walk(p);
    var r := walk + [CancelConnection(p.id)];
    assert r[..|r| - 1] == walk;
    r
  }
}
